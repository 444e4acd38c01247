/**
 * The caret-delimited frame `COMMAND^SUB^field1^...^fieldN` exchanged with the
 * trading terminal: building a request and parsing a response.
 */
module CommMsg {
  import opened Wrappers
  import opened Text

  /** The only delimiter of the protocol; it has no escape. */
  const Sep: char := '^'

  datatype Frame = Frame(command: string, subCommand: string, data: seq<string>)

  datatype ParseError =
    | TooShort         // fewer than three '^'-separated pieces
    | HiddenDelimiter  // an empty piece inside the data

  predicate SepFree(s: string) { Sep !in s }

  /** `k` delimiters in a row. */
  function Seps(k: nat): (r: string)
    ensures |r| == k && forall i :: 0 <= i < k ==> r[i] == Sep
  {
    seq(k, _ => Sep)
  }

  /**
   * `make_message`: the command, the sub-command and the parameters joined by '^'.
   * When none of them holds a '^', splitting the message at '^' gives them back
   * (no parameters leave one empty piece after the last '^').
   */
  function MakeMessage(command: string, subCommand: string, parameters: seq<string>): (r: string)
    ensures SepFree(command) && SepFree(subCommand) && (forall i :: 0 <= i < |parameters| ==> SepFree(parameters[i]))
            ==> Split(r, Sep) == [command, subCommand] + (if parameters == [] then [""] else parameters)
  {
    var m := command + [Sep] + subCommand + [Sep] + Join(parameters, Sep);
    assert SepFree(command) && SepFree(subCommand) && (forall i :: 0 <= i < |parameters| ==> SepFree(parameters[i]))
           ==> Split(m, Sep) == [command, subCommand] + (if parameters == [] then [""] else parameters) by {
      if SepFree(command) && SepFree(subCommand) && (forall i :: 0 <= i < |parameters| ==> SepFree(parameters[i])) {
        FramePieces(command, subCommand, parameters);
      }
    }
    m
  }

  lemma FramePieces(command: string, subCommand: string, parameters: seq<string>)
    requires SepFree(command) && SepFree(subCommand)
    requires forall i :: 0 <= i < |parameters| ==> SepFree(parameters[i])
    ensures Split(command + [Sep] + subCommand + [Sep] + Join(parameters, Sep), Sep)
         == [command, subCommand] + (if parameters == [] then [""] else parameters)
  {
    var tail := if parameters == [] then [""] else parameters;
    var all := [command, subCommand] + tail;
    assert Join(tail, Sep) == Join(parameters, Sep);
    assert all[1..] == [subCommand] + tail;
    assert all[1..][1..] == tail;
    assert Join(all, Sep) == command + [Sep] + subCommand + [Sep] + Join(parameters, Sep);
    SplitJoin(all, Sep);
  }

  /**
   * The longest prefix of `data` that is empty or ends in a non-empty piece:
   * everything cut off is an empty piece.
   */
  function TrimTrailingEmpty(data: seq<string>): (r: seq<string>)
    ensures |r| <= |data| && r == data[..|r|]
    ensures r == [] || r[|r| - 1] != ""
    ensures forall i :: |r| <= i < |data| ==> data[i] == ""
  {
    if |data| == 0 then []
    else if data[|data| - 1] == "" then TrimTrailingEmpty(data[..|data| - 1])
    else data
  }

  /** The frame made of the '^'-separated pieces of a response. */
  function ParseParts(parts: seq<string>): Result<Frame, ParseError>
  {
    if |parts| < 3 then Err(TooShort)
    else
      var data := TrimTrailingEmpty(parts[2..]);
      if "" in data then Err(HiddenDelimiter)
      else Ok(Frame(parts[0], parts[1], data))
  }

  /**
   * `parse_response_message`, as a function of the received text: a parsed frame
   * is made of '^'-free pieces of the text, and its data hold no empty piece.
   */
  function ParseResponse(msg: string): (r: Result<Frame, ParseError>)
    ensures r.Ok? ==> SepFree(r.value.command) && SepFree(r.value.subCommand)
    ensures r.Ok? ==> forall t :: t in r.value.data ==> t != "" && SepFree(t)
  {
    var parts := Split(msg, Sep);
    SplitPiecesFree(msg, Sep);
    if |parts| >= 3 then
      var data := TrimTrailingEmpty(parts[2..]);
      assert forall t :: t in data ==> t in parts by {
        forall t | t in data ensures t in parts {
          var i :| 0 <= i < |data| && data[i] == t;
          assert parts[2 + i] == t;
        }
      }
      ParseParts(parts)
    else
      ParseParts(parts)
  }

  /** Cutting `data` after its last non-empty piece is what `TrimTrailingEmpty` does. */
  lemma {:induction false} TrimTrailingEmptyAt(data: seq<string>, k: nat)
    requires k <= |data| && (k == 0 || data[k - 1] != "")
    requires forall i :: k <= i < |data| ==> data[i] == ""
    ensures TrimTrailingEmpty(data) == data[..k]
    decreases |data|
  {
    if |data| > k {
      var shorter := data[..|data| - 1];
      assert shorter[..k] == data[..k];
      TrimTrailingEmptyAt(shorter, k);
    } else {
      assert data[..k] == data;
    }
  }

  /**
   * `parse_response_message` as the source runs it: split, then walk an index
   * back over the trailing empty pieces, then look for an empty piece left inside.
   */
  method ParseResponseMessage(msg: string) returns (r: Result<Frame, ParseError>)
    ensures r == ParseResponse(msg)
  {
    var parts := Split(msg, Sep);
    if |parts| < 3 {
      return Err(TooShort);
    }
    var data := parts[2..];
    var last := |data| - 1;
    while last >= 0 && data[last] == ""
      invariant -1 <= last < |data|
      invariant forall i :: last < i < |data| ==> data[i] == ""
      decreases last
    {
      last := last - 1;
    }
    TrimTrailingEmptyAt(data, last + 1);
    data := data[..last + 1];
    if "" in data {
      r := Err(HiddenDelimiter);
    } else {
      r := Ok(Frame(parts[0], parts[1], data));
    }
  }

  /** With no parameters the message is `command^sub^`. */
  lemma MakeMessageNoParameters(command: string, subCommand: string)
    ensures MakeMessage(command, subCommand, []) == command + "^" + subCommand + "^"
  {
  }

  /** A message whose last parameter is non-empty and '^'-free does not end in '^'. */
  lemma MakeMessageNoTrailingDelimiter(command: string, subCommand: string, parameters: seq<string>)
    requires |parameters| >= 1
    requires parameters[|parameters| - 1] != "" && SepFree(parameters[|parameters| - 1])
    ensures var m := MakeMessage(command, subCommand, parameters); m[|m| - 1] != Sep
  {
    JoinEndsWithLast(parameters);
  }

  lemma {:induction false} JoinEndsWithLast(parts: seq<string>)
    requires |parts| >= 1 && parts[|parts| - 1] != ""
    ensures var j := Join(parts, Sep); |j| >= 1 && j[|j| - 1] == parts[|parts| - 1][|parts[|parts| - 1]| - 1]
    decreases |parts|
  {
    if |parts| > 1 {
      JoinEndsWithLast(parts[1..]);
    }
  }

  /** Three or more pieces are needed: fewer than two '^' is `TooShort`, and only that is. */
  lemma ParseTooShort(msg: string)
    ensures ParseResponse(msg) == Err(TooShort) <==> Count(msg, Sep) < 2
  {
    SplitCount(msg, Sep);
  }

  /**
   * On success the command and sub-command are the first two pieces, unchecked,
   * and the data are the following pieces up to the last non-empty one, none of
   * them empty; every piece after the data is empty.
   */
  lemma ParseSuccess(msg: string)
    requires ParseResponse(msg).Ok?
    ensures var parts := Split(msg, Sep); var f := ParseResponse(msg).value;
      && |parts| >= 3
      && f.command == parts[0] && f.subCommand == parts[1]
      && 2 + |f.data| <= |parts| && f.data == parts[2..2 + |f.data|]
      && (forall i :: 0 <= i < |f.data| ==> f.data[i] != "")
      && (forall i :: 2 + |f.data| <= i < |parts| ==> parts[i] == "")
  {
    PartsSuccess(Split(msg, Sep));
  }

  lemma PartsSuccess(parts: seq<string>)
    requires ParseParts(parts).Ok?
    ensures var f := ParseParts(parts).value;
      && |parts| >= 3
      && f.command == parts[0] && f.subCommand == parts[1]
      && 2 + |f.data| <= |parts| && f.data == parts[2..2 + |f.data|]
      && (forall i :: 0 <= i < |f.data| ==> f.data[i] != "")
      && (forall i :: 2 + |f.data| <= i < |parts| ==> parts[i] == "")
  {
    var data := TrimTrailingEmpty(parts[2..]);
    assert forall i :: 0 <= i < |data| ==> data[i] in data;
    assert forall i :: 2 + |data| <= i < |parts| ==> parts[i] == parts[2..][i - 2];
  }

  /**
   * The frame is rejected as `HiddenDelimiter` exactly when some data piece is
   * empty while a later piece is not.
   */
  lemma ParseHiddenDelimiter(msg: string)
    ensures var parts := Split(msg, Sep);
      ParseResponse(msg) == Err(HiddenDelimiter)
      <==> exists i, j :: 2 <= i < j < |parts| && parts[i] == "" && parts[j] != ""
  {
    PartsHiddenDelimiter(Split(msg, Sep));
  }

  lemma PartsHiddenDelimiter(parts: seq<string>)
    ensures ParseParts(parts) == Err(HiddenDelimiter)
      <==> exists i, j :: 2 <= i < j < |parts| && parts[i] == "" && parts[j] != ""
  {
    if |parts| >= 3 {
      var data := TrimTrailingEmpty(parts[2..]);
      if "" in data {
        var i :| 0 <= i < |data| && data[i] == "";
        assert data[|data| - 1] != "";
        assert parts[2 + i] == "" && parts[2 + |data| - 1] != "";
      }
      if exists i, j :: 2 <= i < j < |parts| && parts[i] == "" && parts[j] != "" {
        var i, j :| 2 <= i < j < |parts| && parts[i] == "" && parts[j] != "";
        assert parts[2..][j - 2] != "";
        assert j - 2 < |data|;
        assert data[i - 2] == "";
      }
    }
  }

  lemma {:induction false} SplitAppendSep(s: string)
    ensures Split(s + [Sep], Sep) == Split(s, Sep) + [""]
    decreases |s|
  {
    if |s| == 0 {
      assert Split([Sep], Sep) == [""] + Split("", Sep);
    } else {
      SplitAppendSep(s[1..]);
      assert (s + [Sep])[1..] == s[1..] + [Sep];
    }
  }

  /** A trailing '^' after a frame of at least three pieces changes nothing. */
  lemma ParseIgnoresTrailingSep(msg: string)
    requires Count(msg, Sep) >= 2
    ensures ParseResponse(msg + [Sep]) == ParseResponse(msg)
  {
    SplitAppendSep(msg);
    SplitCount(msg, Sep);
    var parts := Split(msg, Sep);
    assert (parts + [""])[2..] == parts[2..] + [""];
    assert (parts[2..] + [""])[..|parts[2..]|] == parts[2..];
  }

  /**
   * Round trip: a message built from a '^'-free command and sub-command and
   * non-empty '^'-free parameters parses back to exactly those.
   */
  lemma RoundTrip(command: string, subCommand: string, parameters: seq<string>)
    requires SepFree(command) && SepFree(subCommand)
    requires forall i :: 0 <= i < |parameters| ==> parameters[i] != "" && SepFree(parameters[i])
    ensures ParseResponse(MakeMessage(command, subCommand, parameters))
         == Ok(Frame(command, subCommand, parameters))
  {
    var parts := Split(MakeMessage(command, subCommand, parameters), Sep);
    if parameters == [] {
      assert parts[2..] == [""];
      assert TrimTrailingEmpty([""]) == TrimTrailingEmpty([""][..0]);
    } else {
      assert parts[2..] == parameters;
      assert "" !in parameters;
    }
  }

  /** Any number of '^' after a frame of at least three pieces changes nothing. */
  lemma {:induction false} ParseIgnoresTrailingSeps(msg: string, k: nat)
    requires Count(msg, Sep) >= 2
    ensures ParseResponse(msg + Seps(k)) == ParseResponse(msg)
    decreases k
  {
    if k > 0 {
      var shorter := msg + Seps(k - 1);
      assert msg + Seps(k) == shorter + [Sep];
      CountAppend(msg, Seps(k - 1));
      ParseIgnoresTrailingSeps(msg, k - 1);
      ParseIgnoresTrailingSep(shorter);
    } else {
      assert msg + Seps(k) == msg;
    }
  }

  lemma {:induction false} CountAppend(a: string, b: string)
    ensures Count(a + b, Sep) == Count(a, Sep) + Count(b, Sep)
    decreases |a|
  {
    if |a| == 0 {
      assert a + b == b;
    } else {
      CountAppend(a[1..], b);
      assert (a + b)[1..] == a[1..] + b;
    }
  }

  /** A frame of three parameters followed by one '^', written out piece by piece. */
  lemma MessageOfThree(command: string, subCommand: string, a: string, b: string, c: string)
    ensures command + [Sep] + subCommand + [Sep] + a + [Sep] + b + [Sep] + c + [Sep]
         == MakeMessage(command, subCommand, [a, b, c]) + Seps(1)
  {
    Join3(a, b, c, Sep);
    assert Seps(1) == [Sep] by { assert Seps(1)[0] == Sep; }
  }

  /** A frame of four parameters followed by one '^', written out piece by piece. */
  lemma MessageOfFour(command: string, subCommand: string, a: string, b: string, c: string, e: string)
    ensures command + [Sep] + subCommand + [Sep] + a + [Sep] + b + [Sep] + c + [Sep] + e + [Sep]
         == MakeMessage(command, subCommand, [a, b, c, e]) + Seps(1)
  {
    Join4(a, b, c, e, Sep);
    assert Seps(1) == [Sep] by { assert Seps(1)[0] == Sep; }
  }

  /**
   * Generalises the source's example `"F123^Y^param1^param2^param3^^"`: a built
   * message followed by trailing '^'s still parses to its parameters.
   */
  lemma RoundTripTrailingSeps(command: string, subCommand: string, parameters: seq<string>, k: nat)
    requires SepFree(command) && SepFree(subCommand)
    requires forall i :: 0 <= i < |parameters| ==> parameters[i] != "" && SepFree(parameters[i])
    ensures ParseResponse(MakeMessage(command, subCommand, parameters) + Seps(k))
         == Ok(Frame(command, subCommand, parameters))
  {
    var m := MakeMessage(command, subCommand, parameters);
    SplitCount(m, Sep);
    ParseIgnoresTrailingSeps(m, k);
    RoundTrip(command, subCommand, parameters);
  }

  /**
   * Generalises the source's `"F123^Y^param1^^param3^"`: an empty parameter
   * before a non-empty one makes the built message unparseable.
   */
  lemma MakeMessageHiddenDelimiter(command: string, subCommand: string, parameters: seq<string>, i: nat, j: nat)
    requires SepFree(command) && SepFree(subCommand)
    requires forall n :: 0 <= n < |parameters| ==> SepFree(parameters[n])
    requires i < j < |parameters| && parameters[i] == "" && parameters[j] != ""
    ensures ParseResponse(MakeMessage(command, subCommand, parameters)) == Err(HiddenDelimiter)
  {
    var parts := Split(MakeMessage(command, subCommand, parameters), Sep);
    assert parts[2 + i] == "" && parts[2 + j] != "";
    ParseHiddenDelimiter(MakeMessage(command, subCommand, parameters));
  }

  /** Two pieces are too few. */
  lemma ExampleTooShort()
    ensures ParseResponse("F123^Y") == Err(TooShort)
  {
    assert Count("F123^Y", Sep) == 1;
    ParseTooShort("F123^Y");
  }
}
