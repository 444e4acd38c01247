/**
 * How the JavaScript client reads a reply once it is complete: the list
 * replies (`x.slice(2, -1)`), the replies that announce their row count in the
 * sub-command field, the sort of ticks and bars on their date, and the check
 * on a date window.
 */
module JsReplies {
  import opened Wrappers
  import opened Text
  import opened Numbers
  import opened CommMsg

  /** The separator of the fields inside one row. */
  const FieldSep: char := '$'

  datatype ReplyError =
    | InvalidResponseFormat  // the first piece is not the command that was sent
    | RowMissing             // the announced row count exceeds the rows present

  /** `x.slice(2, -1)`: drop the command, the sub-command and the last piece. */
  function ListTokens(x: seq<string>): (r: seq<string>)
    ensures |x| <= 2 ==> r == []
    ensures |x| > 2 ==> x == x[..2] + r + [x[|x| - 1]]
  {
    if |x| <= 2 then [] else x[2..|x| - 1]
  }

  /**
   * A list reply (`F007` broker names, `F021` ticks, `F042` bars): the pieces
   * between the header and the terminator. The items are '^'-free, and there
   * is one fewer item than there are '^' after the second one.
   */
  function ListReply(reply: string, code: string): (r: Result<seq<string>, ReplyError>)
    ensures r.Err? <==> Split(reply, Sep)[0] != code
    ensures r.Err? ==> r.error == InvalidResponseFormat
    ensures r.Ok? ==> r.value == ListTokens(Split(reply, Sep))
    ensures r.Ok? ==> FreeOf(r.value, Sep)
    ensures r.Ok? ==> |r.value| == if Count(reply, Sep) >= 2 then Count(reply, Sep) - 2 else 0
  {
    var x := Split(reply, Sep);
    SplitCount(reply, Sep);
    SplitPiecesFree(reply, Sep);
    if x[0] != code then Err(InvalidResponseFormat)
    else
      var items := ListTokens(x);
      assert forall i :: 0 <= i < |items| ==> items[i] == x[i + 2];
      Ok(items)
  }

  /**
   * Each listed row cut into its `$`-separated fields: the fields hold no `$`
   * and joined with `$` they give the row back.
   */
  function Rows(tokens: seq<string>): (r: seq<seq<string>>)
    ensures |r| == |tokens| && forall i :: 0 <= i < |r| ==> r[i] == Split(tokens[i], FieldSep)
    ensures forall i :: 0 <= i < |r| ==> Join(r[i], FieldSep) == tokens[i] && FreeOf(r[i], FieldSep)
  {
    var r := seq(|tokens|, i requires 0 <= i < |tokens| => Split(tokens[i], FieldSep));
    assert forall i :: 0 <= i < |r| ==> Join(r[i], FieldSep) == tokens[i] && FreeOf(r[i], FieldSep) by {
      forall i | 0 <= i < |r|
        ensures Join(r[i], FieldSep) == tokens[i] && FreeOf(r[i], FieldSep)
      {
        JoinSplit(tokens[i], FieldSep);
        SplitPiecesFree(tokens[i], FieldSep);
      }
    }
    r
  }

  predicate FreeOf(items: seq<string>, d: char)
  {
    forall i :: 0 <= i < |items| ==> d !in items[i]
  }

  /** The reply the terminal sends for a list: header, the items, and the `!` terminator. */
  function ListMessage(code: string, subCommand: string, items: seq<string>): string
  {
    MakeMessage(code, subCommand, items + ["!"])
  }

  /** A list reply gives back exactly the items that were sent, and nothing for a wrong command. */
  lemma ListReplyRoundTrip(code: string, subCommand: string, items: seq<string>, expected: string)
    requires SepFree(code) && SepFree(subCommand) && FreeOf(items, Sep)
    ensures ListReply(ListMessage(code, subCommand, items), expected)
         == if code == expected then Ok(items) else Err(InvalidResponseFormat)
  {
    var ps := items + ["!"];
    assert forall i :: 0 <= i < |ps| ==> SepFree(ps[i]);
    var x := Split(ListMessage(code, subCommand, items), Sep);
    assert x == [code, subCommand] + ps;
    assert x[2..|x| - 1] == items;
  }

  /** Rows joined with `$` and listed come back field by field. */
  lemma RowsRoundTrip(rows: seq<seq<string>>)
    requires forall i :: 0 <= i < |rows| ==> |rows[i]| >= 1 && FreeOf(rows[i], FieldSep)
    ensures Rows(Joined(rows)) == rows
  {
    forall i | 0 <= i < |rows|
      ensures Split(Join(rows[i], FieldSep), FieldSep) == rows[i]
    {
      SplitJoin(rows[i], FieldSep);
    }
  }

  function Joined(rows: seq<seq<string>>): (r: seq<string>)
    ensures |r| == |rows| && forall i :: 0 <= i < |r| ==> r[i] == Join(rows[i], FieldSep)
  {
    seq(|rows|, i requires 0 <= i < |rows| => Join(rows[i], FieldSep))
  }

  /**
   * The replies whose second piece is the row count (`F060` pending orders,
   * `F061` open positions, `F062`/`F064` closed positions and deleted orders):
   * `rows = parseInt(x[1])`, then rows `0 .. rows` of `x.slice(2, -1)`, each cut on
   * `$`. A count that is `NaN`, zero or negative gives no rows; a row beyond
   * the listed ones is `undefined`, whose `split` throws.
   */
  method RowCountReply(reply: string, code: string) returns (r: Result<seq<seq<string>>, ReplyError>)
    ensures var x := Split(reply, Sep);
            r == Err(InvalidResponseFormat) <==> x[0] != code
    ensures var x := Split(reply, Sep);
            var count := if |x| >= 2 then JsParseInt(x[1]) else None;
            x[0] == code ==>
              (r == Err(RowMissing) <==> count.Some? && count.value > |ListTokens(x)|)
    ensures var x := Split(reply, Sep);
            var count := if |x| >= 2 then JsParseInt(x[1]) else None;
            x[0] == code && !(count.Some? && count.value > |ListTokens(x)|) ==> r.Ok?
    ensures var x := Split(reply, Sep);
            var count := if |x| >= 2 then JsParseInt(x[1]) else None;
            r.Ok? ==> (x[0] == code
                       && |r.value| == (if count.Some? && count.value > 0 then count.value else 0)
                       && forall i :: 0 <= i < |r.value| ==> r.value[i] == Split(ListTokens(x)[i], FieldSep))
  {
    var x := Split(reply, Sep);
    if x[0] != code {
      return Err(InvalidResponseFormat);
    }
    var count := if |x| >= 2 then JsParseInt(x[1]) else None;
    var tokens := ListTokens(x);
    if count.None? || count.value <= 0 {
      return Ok([]);
    }
    var rows: seq<seq<string>> := [];
    for i := 0 to count.value
      invariant i <= |tokens|
      invariant |rows| == i
      invariant forall k :: 0 <= k < i ==> rows[k] == Split(tokens[k], FieldSep)
    {
      if i >= |tokens| {
        return Err(RowMissing);
      }
      rows := rows + [Split(tokens[i], FieldSep)];
    }
    r := Ok(rows);
  }

  /** The reply the terminal sends for `rows`: the count as sub-command, one `$`-joined token per row, `!`. */
  function RowCountMessage(code: string, rows: seq<seq<string>>): string
  {
    ListMessage(code, IntToString(|rows|), Joined(rows))
  }

  lemma RowCountMessagePieces(code: string, rows: seq<seq<string>>)
    requires SepFree(code)
    requires forall i :: 0 <= i < |rows| ==> FreeOf(rows[i], Sep)
    ensures var x := Split(RowCountMessage(code, rows), Sep);
            |x| == |rows| + 3 && x[0] == code && x[1] == IntToString(|rows|)
            && ListTokens(x) == Joined(rows)
  {
    var items := Joined(rows);
    forall i | 0 <= i < |items|
      ensures Sep !in items[i]
    {
      JoinFree(rows[i], FieldSep, Sep);
    }
    IntToStringFree(|rows|, Sep);
    ListReplyRoundTrip(code, IntToString(|rows|), items, code);
  }

  lemma {:induction false} JoinFree(parts: seq<string>, d: char, c: char)
    requires c != d && FreeOf(parts, c)
    ensures c !in Join(parts, d)
  {
    if |parts| > 1 {
      JoinFree(parts[1..], d, c);
    }
  }

  /** The rows announced and listed by the terminal are read back exactly. */
  lemma RowCountRoundTrip(code: string, rows: seq<seq<string>>)
    requires SepFree(code)
    requires forall i :: 0 <= i < |rows| ==> |rows[i]| >= 1 && FreeOf(rows[i], Sep) && FreeOf(rows[i], FieldSep)
    ensures var x := Split(RowCountMessage(code, rows), Sep);
            |x| == |rows| + 3 && x[0] == code
            && JsParseInt(x[1]) == Some(|rows|)
            && forall i :: 0 <= i < |rows| ==> Split(ListTokens(x)[i], FieldSep) == rows[i]
  {
    RowCountMessagePieces(code, rows);
    JsParseIntToString(|rows|);
    RowsRoundTrip(rows);
  }

  /** The refusal of a date window whose start is later than its end. */
  datatype WindowError = WrongWindow  // `WRONG_DATE_TO_OR_DATE_FROM_VALUE`

  /**
   * The date window check the closed-positions and deleted-orders queries run
   * before sending anything. It is a single comparison, kept as a helper with
   * its own error type; no reply is involved.
   */
  function CheckWindow(dateFrom: int, dateTo: int): (r: Result<(), WindowError>)
    ensures r.Ok? <==> dateFrom <= dateTo
  {
    if dateFrom > dateTo then Err(WrongWindow) else Ok(())
  }

  /** A tick or bar row keyed by its `parseInt`-ed date (epoch milliseconds or seconds). */
  datatype DatedRow = DatedRow(date: int, fields: seq<string>)

  predicate SortedByDate(rows: seq<DatedRow>)
  {
    forall i, j :: 0 <= i < j < |rows| ==> rows[i].date <= rows[j].date
  }

  /** Place `row` after every row that is not later. */
  function InsertByDate(row: DatedRow, sorted: seq<DatedRow>): (r: seq<DatedRow>)
    requires SortedByDate(sorted)
    ensures SortedByDate(r)
    ensures multiset(r) == multiset(sorted) + multiset{row}
    ensures |r| == |sorted| + 1
  {
    if |sorted| == 0 then [row]
    else if row.date < sorted[0].date then
      SortedCons(row, sorted);
      [row] + sorted
    else
      var rest := InsertByDate(row, sorted[1..]);
      assert sorted == [sorted[0]] + sorted[1..];
      NotEarlier(sorted[0], row, sorted[1..], rest);
      SortedCons(sorted[0], rest);
      [sorted[0]] + rest
  }

  /** A row no later than the head of a sorted sequence keeps it sorted in front. */
  lemma SortedCons(first: DatedRow, rows: seq<DatedRow>)
    requires SortedByDate(rows) && (|rows| == 0 || first.date <= rows[0].date)
    ensures SortedByDate([first] + rows)
  {
    var r := [first] + rows;
    forall i, j | 0 <= i < j < |r|
      ensures r[i].date <= r[j].date
    {
      if i == 0 {
        assert r[j] == rows[j - 1];
      } else {
        assert r[i] == rows[i - 1] && r[j] == rows[j - 1];
      }
    }
  }

  /** A row no later than `row` and than every row of `others` is no later than any rearrangement of them. */
  lemma NotEarlier(first: DatedRow, row: DatedRow, others: seq<DatedRow>, rest: seq<DatedRow>)
    requires first.date <= row.date
    requires forall k :: 0 <= k < |others| ==> first.date <= others[k].date
    requires multiset(rest) == multiset(others) + multiset{row}
    ensures forall k :: 0 <= k < |rest| ==> first.date <= rest[k].date
  {
    forall k | 0 <= k < |rest|
      ensures first.date <= rest[k].date
    {
      assert rest[k] in multiset(rest);
      if rest[k] != row {
        assert rest[k] in multiset(others);
        assert rest[k] in others;
      }
    }
  }

  /** `rows.sort((a, b) => a.date - b.date)`: ascending dates, same rows. */
  function SortByDate(rows: seq<DatedRow>): (r: seq<DatedRow>)
    ensures SortedByDate(r)
    ensures multiset(r) == multiset(rows)
  {
    if |rows| == 0 then []
    else
      assert rows == rows[..|rows| - 1] + [rows[|rows| - 1]];
      InsertByDate(rows[|rows| - 1], SortByDate(rows[..|rows| - 1]))
  }

  /** The rows of all pages, page after page. */
  function Flatten(pages: seq<seq<DatedRow>>): seq<DatedRow>
  {
    if |pages| == 0 then [] else Flatten(pages[..|pages| - 1]) + pages[|pages| - 1]
  }

  /**
   * The end of the paged tick and bar queries: append each page's rows to
   * `allTicks` / `allBars` as it arrives, then sort the whole on the date.
   */
  method GatherPages(pages: seq<seq<DatedRow>>) returns (all: seq<DatedRow>)
    ensures SortedByDate(all)
    ensures multiset(all) == multiset(Flatten(pages))
  {
    all := [];
    for i := 0 to |pages|
      invariant all == Flatten(pages[..i])
    {
      assert pages[..i + 1][..i] == pages[..i];
      all := all + pages[i];
    }
    assert pages[..|pages|] == pages;
    all := SortByDate(all);
  }

  /** Two date-sorted sequences of the same rows, with distinct dates, are the same sequence. */
  lemma {:induction false} SortedUnique(a: seq<DatedRow>, b: seq<DatedRow>)
    requires SortedByDate(a) && SortedByDate(b) && multiset(a) == multiset(b)
    requires forall i, j :: 0 <= i < j < |a| ==> a[i].date != a[j].date
    ensures a == b
  {
    if |a| > 0 {
      assert |b| == |multiset(b)| == |a|;
      assert a[0] in multiset(b);
      assert b[0] in multiset(a);
      var i :| 0 <= i < |b| && b[i] == a[0];
      var j :| 0 <= j < |a| && a[j] == b[0];
      assert a[0].date <= a[j].date == b[0].date <= b[i].date == a[0].date;
      assert j == 0;
      assert a[0] == b[0];
      DropFirst(a);
      DropFirst(b);
      SortedUnique(a[1..], b[1..]);
    } else {
      assert |b| == |multiset(b)| == 0;
    }
  }

  lemma DropFirst(s: seq<DatedRow>)
    requires |s| > 0
    ensures multiset(s[1..]) == multiset(s) - multiset{s[0]}
  {
    assert s == [s[0]] + s[1..];
  }

  /**
   * Fetching the pages of ticks or bars in any order gives the same sorted
   * result, as long as no two rows share a date.
   */
  lemma PageOrderIrrelevant(pages1: seq<DatedRow>, pages2: seq<DatedRow>)
    requires multiset(pages1) == multiset(pages2)
    requires forall i, j :: 0 <= i < j < |pages1| ==> pages1[i].date != pages1[j].date
    ensures SortByDate(pages1) == SortByDate(pages2)
  {
    var s := SortByDate(pages1);
    forall i, j | 0 <= i < j < |s|
      ensures s[i].date != s[j].date
    {
      DistinctDatesKept(pages1, s, i, j);
    }
    SortedUnique(s, SortByDate(pages2));
  }

  lemma DistinctDatesKept(rows: seq<DatedRow>, s: seq<DatedRow>, i: nat, j: nat)
    requires multiset(s) == multiset(rows) && i < j < |s|
    requires forall p, q :: 0 <= p < q < |rows| ==> rows[p].date != rows[q].date
    ensures s[i].date != s[j].date
  {
    // Distinct dates mean distinct rows occurring once each in `rows`.
    assert s[i] in multiset(rows) && s[j] in multiset(rows);
    var p :| 0 <= p < |rows| && rows[p] == s[i];
    var q :| 0 <= q < |rows| && rows[q] == s[j];
    if p == q {
      assert s[i] == s[j];
      assert s == s[..j] + s[j..];
      assert multiset(s) == multiset(s[..j]) + multiset(s[j..]);
      assert s[..j][i] == s[i] && s[j..][0] == s[j];
      assert multiset(s)[s[i]] >= 2;
      OnceEach(rows, p);
      assert false;
    }
  }

  lemma {:induction false} OnceEach(rows: seq<DatedRow>, p: nat)
    requires p < |rows|
    requires forall a, b :: 0 <= a < b < |rows| ==> rows[a].date != rows[b].date
    ensures multiset(rows)[rows[p]] == 1
  {
    var last := |rows| - 1;
    assert rows == rows[..last] + [rows[last]];
    if p == last {
      assert rows[p] !in rows[..last];
    } else {
      OnceEach(rows[..last], p);
      assert rows[last] != rows[p];
    }
  }
}
