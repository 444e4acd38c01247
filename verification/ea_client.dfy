/**
 * The EA command client: each query sends a fixed request frame, checks the
 * reply's command code, maps fixed token positions to a named record, and
 * records the outcome in the `timeout`, `command_ok` and `command_return_error`
 * fields. The transport `send_message` is a parameter: `None` stands for a call
 * that raised, `Some("")` for an empty (falsy) reply.
 */
module EaClient {
  import opened Wrappers
  import opened Text
  import opened Numbers
  import CommMsg

  /** How a query ended: a returned value, or a raised exception. */
  datatype Outcome<+T> = Returned(value: T) | Raised

  datatype StaticAccountInfo = StaticAccountInfo(
    name: string, login: string, currency: string, accountType: string, leverage: string,
    tradeAllowed: string, limitOrders: string, marginCall: string, marginClose: string,
    company: string)

  datatype DynamicAccountInfo = DynamicAccountInfo(
    balance: string, equity: string, profit: string, margin: string,
    marginLevel: string, marginFree: string)

  /** Price fields stay as their text; `date`, `volume` and `dateInMs` go through `int()`. */
  datatype LastTickInfo = LastTickInfo(
    instrument: string, date: int, ask: string, bid: string, last: string,
    volume: int, spread: string, dateInMs: int)

  /** The three status fields the client updates on every query. */
  datatype Status = Status(timeout: bool, commandOk: bool, commandReturnError: string)

  /** The reply classified the way every query method branches on it. */
  datatype Exchange =
    | SendRaised                    // `send_message` raised
    | EmptyReply                    // a falsy reply
    | Mismatch                      // the first token is not the expected code
    | Matched(tokens: seq<string>)  // the full '^'-split reply

  const CheckConnectionRequest: string := "F000^1^"
  const StaticAccountRequest: string := "F001^1^"
  const DynamicAccountRequest: string := "F002^1^"

  function LastTickRequest(instrument: string): string
  {
    "F020^2^" + instrument + "^"
  }

  /**
   * The pure part of `_process_response`: the split reply when its first token
   * is the code. The tokens are '^'-free and joined with '^' give the reply back.
   */
  function MatchReply(response: string, expectedCode: string): (r: Option<seq<string>>)
    ensures r.Some? <==> Split(response, '^')[0] == expectedCode
    ensures r.Some? ==> |r.value| >= 1 && r.value[0] == expectedCode && Join(r.value, '^') == response
    ensures r.Some? ==> forall t :: t in r.value ==> '^' !in t
  {
    JoinSplit(response, '^');
    SplitPiecesFree(response, '^');
    var x := Split(response, '^');
    if x[0] == expectedCode then Some(x) else None
  }

  function Classify(reply: Option<string>, expectedCode: string): Exchange
  {
    if reply.None? then SendRaised
    else if reply.value == "" then EmptyReply
    else match MatchReply(reply.value, expectedCode)
      case Some(x) => Matched(x)
      case None => Mismatch
  }

  /** The fields of a static-account record in the order the reply carries them. */
  function StaticFields(info: StaticAccountInfo): seq<string>
  {
    [info.name, info.login, info.currency, info.accountType, info.leverage,
     info.tradeAllowed, info.limitOrders, info.marginCall, info.marginClose, info.company]
  }

  /** The fields of a dynamic-account record in the order the reply carries them. */
  function DynamicFields(info: DynamicAccountInfo): seq<string>
  {
    [info.balance, info.equity, info.profit, info.margin, info.marginLevel, info.marginFree]
  }

  /**
   * The static-account record: built exactly when the reply has at least
   * twelve tokens (fewer make the indexing raise), its fields being tokens
   * 2..11 in order.
   */
  function StaticRecord(x: seq<string>): (r: Option<StaticAccountInfo>)
    ensures r.Some? <==> |x| >= 12
    ensures r.Some? ==> StaticFields(r.value) == x[2..12]
  {
    if |x| < 12 then None
    else Some(StaticAccountInfo(x[2], x[3], x[4], x[5], x[6], x[7], x[8], x[9], x[10], x[11]))
  }

  /** The dynamic-account record: built exactly when there are at least eight tokens, from tokens 2..7. */
  function DynamicRecord(x: seq<string>): (r: Option<DynamicAccountInfo>)
    ensures r.Some? <==> |x| >= 8
    ensures r.Some? ==> DynamicFields(r.value) == x[2..8]
  {
    if |x| < 8 then None
    else Some(DynamicAccountInfo(x[2], x[3], x[4], x[5], x[6], x[7]))
  }

  /**
   * The last-tick record: built exactly when there are at least nine tokens
   * and tokens 2, 6 and 8 are integers (otherwise indexing or `int()` raises);
   * the prices and the spread stay text, and the instrument is the one asked for.
   */
  function TickRecord(instrument: string, x: seq<string>): (r: Option<LastTickInfo>)
    ensures r.Some? <==> |x| >= 9 && ParseInt(x[2]).Some? && ParseInt(x[6]).Some? && ParseInt(x[8]).Some?
    ensures r.Some? ==> r.value.instrument == instrument
                        && [r.value.ask, r.value.bid, r.value.last] == x[3..6] && r.value.spread == x[7]
    ensures r.Some? ==> ParseInt(x[2]) == Some(r.value.date) && ParseInt(x[6]) == Some(r.value.volume)
                        && ParseInt(x[8]) == Some(r.value.dateInMs)
  {
    if |x| < 9 then None
    else match (ParseInt(x[2]), ParseInt(x[6]), ParseInt(x[8]))
      case (Some(date), Some(volume), Some(dateInMs)) =>
        Some(LastTickInfo(instrument, date, x[3], x[4], x[5], volume, x[7], dateInMs))
      case _ => None
  }

  /** The value a record query returns, or `Raised`, for a given reply. */
  function RecordOutcome<R>(e: Exchange, build: seq<string> -> Option<R>): Outcome<Option<R>>
  {
    match e
    case SendRaised => Raised
    case EmptyReply => Returned(None)
    case Mismatch => Returned(None)
    case Matched(x) => if build(x).Some? then Returned(build(x)) else Raised
  }

  /** The value `check_connection` returns, or `Raised`, for a given reply. */
  function CheckOutcome(e: Exchange): Outcome<bool>
  {
    match e
    case SendRaised => Raised
    case EmptyReply => Returned(false)
    case Mismatch => Returned(false)
    case Matched(_) => Returned(true)
  }

  class EAClient {
    /** `ERROR_DICT['00001']`, the generic failure text. */
    const errConnection: string
    /** `ERROR_DICT['99900']`, the protocol-mismatch text. */
    const errProtocol: string

    var timeout: bool
    var commandOk: bool
    var commandReturnError: string

    constructor (errConnection: string, errProtocol: string)
      ensures this.errConnection == errConnection && this.errProtocol == errProtocol
      ensures StatusOf() == Status(false, false, "")
    {
      this.errConnection := errConnection;
      this.errProtocol := errProtocol;
      timeout, commandOk, commandReturnError := false, false, "";
    }

    function StatusOf(): Status
      reads this
    {
      Status(timeout, commandOk, commandReturnError)
    }

    /**
     * The status after a query whose reply classified as `e`, starting from
     * `timeout` = `wasTimeout`; `built` says whether the record could be built
     * from a matched reply (when it could not, the handler's exception path ran).
     */
    function StatusAfter(wasTimeout: bool, e: Exchange, built: bool): Status
    {
      match e
      case SendRaised => Status(wasTimeout, false, errConnection)
      case EmptyReply => Status(wasTimeout, false, "")
      case Mismatch => Status(true, true, errProtocol)
      case Matched(_) => if built then Status(false, true, "") else Status(false, false, errConnection)
    }

    /** `_process_response`: a match clears `timeout`; a mismatch sets it and the protocol error. */
    method ProcessResponse(response: string, expectedCode: string) returns (x: Option<seq<string>>)
      modifies this
      ensures x == MatchReply(response, expectedCode)
      ensures x.Some? ==> StatusOf() == Status(false, true, old(commandReturnError))
      ensures x.None? ==> StatusOf() == Status(true, true, errProtocol)
    {
      var tokens := Split(response, '^');
      if tokens[0] == expectedCode {
        timeout := false;
        commandOk := true;
        return Some(tokens);
      } else {
        timeout := true;
        commandReturnError := errProtocol;
        commandOk := true;
        return None;
      }
    }

    /** Sends the request and runs `_process_response` on a non-empty reply. */
    method Exchange(send: string -> Option<string>, message: string, expectedCode: string) returns (e: Exchange)
      modifies this
      ensures e == Classify(send(message), expectedCode)
      ensures e.SendRaised? || e.EmptyReply? ==> StatusOf() == Status(old(timeout), old(commandOk), "")
      ensures e.Mismatch? ==> StatusOf() == Status(true, true, errProtocol)
      ensures e.Matched? ==> StatusOf() == Status(false, true, "")
    {
      commandReturnError := "";
      var reply := send(message);
      if reply.None? {
        return SendRaised;
      }
      if reply.value == "" {
        return EmptyReply;
      }
      var x := ProcessResponse(reply.value, expectedCode);
      e := if x.Some? then Matched(x.value) else Mismatch;
    }

    /** Ends a query whose reply classified as `e`: a failed send or a failed record raises. */
    method Settle(e: Exchange, built: bool)
      modifies this
      ensures e.SendRaised? ==> StatusOf() == Status(old(timeout), false, errConnection)
      ensures e.EmptyReply? ==> StatusOf() == Status(old(timeout), false, old(commandReturnError))
      ensures e.Mismatch? ==> StatusOf() == old(StatusOf())
      ensures e.Matched? ==> StatusOf() == if built then old(StatusOf()) else Status(old(timeout), false, errConnection)
    {
      match e
      case SendRaised =>
        commandReturnError := errConnection;
        commandOk := false;
      case EmptyReply =>
        commandOk := false;
      case Mismatch =>
      case Matched(_) =>
        if !built {
          commandReturnError := errConnection;
          commandOk := false;
        }
    }

    /** `check_connection`: true exactly when the reply starts with `F000`. */
    method CheckConnection(send: string -> Option<string>) returns (r: Outcome<bool>)
      modifies this
      ensures r == CheckOutcome(Classify(send(CheckConnectionRequest), "F000"))
      ensures StatusOf() == StatusAfter(old(timeout), Classify(send(CheckConnectionRequest), "F000"), true)
    {
      var e := Exchange(send, CheckConnectionRequest, "F000");
      Settle(e, true);
      r := CheckOutcome(e);
    }

    /** `get_static_account_info`. */
    method GetStaticAccountInfo(send: string -> Option<string>) returns (r: Outcome<Option<StaticAccountInfo>>)
      modifies this
      ensures var e := Classify(send(StaticAccountRequest), "F001");
        && r == RecordOutcome(e, StaticRecord)
        && StatusOf() == StatusAfter(old(timeout), e, e.Matched? ==> StaticRecord(e.tokens).Some?)
    {
      var e := Exchange(send, StaticAccountRequest, "F001");
      var built := e.Matched? ==> StaticRecord(e.tokens).Some?;
      Settle(e, built);
      r := RecordOutcome(e, StaticRecord);
    }

    /** `get_dynamic_account_info`. */
    method GetDynamicAccountInfo(send: string -> Option<string>) returns (r: Outcome<Option<DynamicAccountInfo>>)
      modifies this
      ensures var e := Classify(send(DynamicAccountRequest), "F002");
        && r == RecordOutcome(e, DynamicRecord)
        && StatusOf() == StatusAfter(old(timeout), e, e.Matched? ==> DynamicRecord(e.tokens).Some?)
    {
      var e := Exchange(send, DynamicAccountRequest, "F002");
      var built := e.Matched? ==> DynamicRecord(e.tokens).Some?;
      Settle(e, built);
      r := RecordOutcome(e, DynamicRecord);
    }

    /** `get_last_tick_info`: the record echoes the requested instrument. */
    method GetLastTickInfo(send: string -> Option<string>, instrument: string) returns (r: Outcome<Option<LastTickInfo>>)
      modifies this
      ensures var e := Classify(send(LastTickRequest(instrument)), "F020");
        && r == RecordOutcome(e, x => TickRecord(instrument, x))
        && StatusOf() == StatusAfter(old(timeout), e, e.Matched? ==> TickRecord(instrument, e.tokens).Some?)
    {
      var e := Exchange(send, LastTickRequest(instrument), "F020");
      var built := e.Matched? ==> TickRecord(instrument, e.tokens).Some?;
      Settle(e, built);
      r := RecordOutcome(e, x => TickRecord(instrument, x));
    }
  }

  /** The account requests are frames of the codec: code, sub-command, no parameters. */
  lemma AccountRequestFrames()
    ensures StaticAccountRequest == CommMsg.MakeMessage("F001", "1", [])
    ensures DynamicAccountRequest == CommMsg.MakeMessage("F002", "1", [])
  {
  }

  /**
   * The connection check is the frame `F000^1^` with no parameters, and the
   * last-tick request is the frame `F020^2^instrument` followed by one more '^'.
   */
  lemma RequestFrames(instrument: string)
    ensures CheckConnectionRequest == CommMsg.MakeMessage("F000", "1", [])
    ensures LastTickRequest(instrument) == CommMsg.MakeMessage("F020", "2", [instrument]) + "^"
  {
    assert Join([instrument], '^') == instrument;
  }

  /** The last-tick request parses back to its command, sub-command and instrument. */
  lemma LastTickRequestParses(instrument: string)
    requires instrument != "" && '^' !in instrument
    ensures CommMsg.ParseResponse(LastTickRequest(instrument)) == Ok(CommMsg.Frame("F020", "2", [instrument]))
  {
    CommMsg.RoundTripTrailingSeps("F020", "2", [instrument], 1);
    assert CommMsg.MakeMessage("F020", "2", [instrument]) + CommMsg.Seps(1) == LastTickRequest(instrument);
  }

  /** Tokens of a reply `code^sub^f1^...^fn...` built from '^'-free pieces. */
  lemma ReplyTokens(code: string, sub: string, fields: seq<string>)
    requires '^' !in code && '^' !in sub
    requires forall i :: 0 <= i < |fields| ==> '^' !in fields[i]
    ensures Split(Join([code, sub] + fields, '^'), '^') == [code, sub] + fields
  {
    SplitJoinTwoPlus(code, sub, fields, '^');
  }

  /**
   * A static-account reply whose fields are '^'-free and at least ten maps its
   * first ten fields, in order, to name, login, currency, type, leverage,
   * trade_allowed, limit_orders, margin_call, margin_close and company.
   */
  lemma StaticAccountFromReply(sub: string, fields: seq<string>)
    requires '^' !in sub && |fields| >= 10
    requires forall i :: 0 <= i < |fields| ==> '^' !in fields[i]
    ensures Classify(Some(Join(["F001", sub] + fields, '^')), "F001")
         == Matched(["F001", sub] + fields)
    ensures StaticRecord(["F001", sub] + fields) == Some(StaticAccountInfo(
      fields[0], fields[1], fields[2], fields[3], fields[4], fields[5], fields[6], fields[7], fields[8], fields[9]))
  {
    ReplyTokens("F001", sub, fields);
    assert Join(["F001", sub] + fields, '^') != "" by {
      assert Split("", '^') == [""];
    }
  }

  /** A dynamic-account reply maps its first six fields to balance, equity, profit, margin, margin level and free margin. */
  lemma DynamicAccountFromReply(sub: string, fields: seq<string>)
    requires '^' !in sub && |fields| >= 6
    requires forall i :: 0 <= i < |fields| ==> '^' !in fields[i]
    ensures Classify(Some(Join(["F002", sub] + fields, '^')), "F002")
         == Matched(["F002", sub] + fields)
    ensures DynamicRecord(["F002", sub] + fields) == Some(DynamicAccountInfo(
      fields[0], fields[1], fields[2], fields[3], fields[4], fields[5]))
  {
    ReplyTokens("F002", sub, fields);
    assert Join(["F002", sub] + fields, '^') != "" by {
      assert Split("", '^') == [""];
    }
  }

  /** A last-tick reply with integer date, volume and millisecond date yields the record, echoing the instrument. */
  lemma LastTickFromReply(instrument: string, sub: string, date: int, ask: string, bid: string, last: string,
                          volume: int, spread: string, dateInMs: int)
    requires '^' !in sub && '^' !in ask && '^' !in bid && '^' !in last && '^' !in spread
    ensures var tokens := ["F020", sub, IntToString(date), ask, bid, last, IntToString(volume), spread, IntToString(dateInMs)];
      TickRecord(instrument, tokens) == Some(LastTickInfo(instrument, date, ask, bid, last, volume, spread, dateInMs))
  {
    ParseIntToString(date);
    ParseIntToString(volume);
    ParseIntToString(dateInMs);
  }

  /**
   * The two failure kinds stay apart: a failed transport raises and leaves the
   * generic error, a wrong command code returns nothing and leaves the protocol error.
   */
  lemma FailureKindsDistinct(c: EAClient, wasTimeout: bool, reply: string)
    requires reply != "" && Split(reply, '^')[0] != "F001"
    requires c.errConnection != c.errProtocol
    ensures RecordOutcome(Classify(None, "F001"), StaticRecord) == Raised
    ensures RecordOutcome(Classify(Some(reply), "F001"), StaticRecord) == Returned(None)
    ensures c.StatusAfter(wasTimeout, Classify(None, "F001"), true).commandReturnError
         != c.StatusAfter(wasTimeout, Classify(Some(reply), "F001"), true).commandReturnError
  {
  }
}
