/**
 * How the JavaScript client splits a request for the last `n` ticks or bars
 * into requests of at most `maxTicks` / `maxBars` rows each, and the request
 * frame it sends for one page.
 */
module JsPaging {
  import opened Wrappers
  import opened Text
  import opened Numbers
  import opened CommMsg

  /** `this.maxTicks` and `this.maxBars`, fixed by the constructor. */
  const MaxTicks: int := 2000
  const MaxBars: int := 2000

  /** One request: the rows `offset .. offset + count` counted back from now. */
  datatype Page = Page(offset: nat, count: nat)

  datatype PagingError =
    | InvalidCount   // `INVALID_NBR_OF_TICKS` / `INVALID_NBR_OF_BARS`
    | PageFailed     // a page request threw; reported as `X_TICK_INFO_FAILED` / `X_BAR_INFO_FAILED`

  /** Rows asked for by all the pages together. */
  function Total(pages: seq<Page>): nat
  {
    if |pages| == 0 then 0 else Total(pages[..|pages| - 1]) + pages[|pages| - 1].count
  }

  /**
   * The pages ask for rows `0 .. n` exactly once each, in order: the first
   * starts at 0, each starts where the one before ends, together they ask for
   * `n` rows, and no page asks for more than `max` rows or for none.
   */
  predicate Covers(pages: seq<Page>, n: int, max: int)
  {
    && Total(pages) == n
    && (|pages| > 0 ==> pages[0].offset == 0)
    && (forall k :: 1 <= k < |pages| ==> pages[k].offset == pages[k - 1].offset + pages[k - 1].count)
    && (forall k :: 0 <= k < |pages| ==> 1 <= pages[k].count <= max)
  }

  /** Appending a page that starts where the covered rows end extends the cover. */
  lemma CoversAppend(pages: seq<Page>, covered: int, max: int, count: nat)
    requires Covers(pages, covered, max) && 1 <= count <= max
    ensures Covers(pages + [Page(covered as nat, count)], covered + count, max)
  {
    var next := pages + [Page(covered as nat, count)];
    assert next[..|pages|] == pages;
    if |pages| > 0 {
      EndOfCover(pages, covered, max);
    }
  }

  /** The last page of a cover ends at the number of rows covered. */
  lemma {:induction false} EndOfCover(pages: seq<Page>, covered: int, max: int)
    requires |pages| > 0 && Covers(pages, covered, max)
    ensures pages[|pages| - 1].offset + pages[|pages| - 1].count == covered
  {
    var front := pages[..|pages| - 1];
    assert Total(pages) == Total(front) + pages[|pages| - 1].count;
    if |front| > 0 {
      assert Covers(front, Total(front), max);
      EndOfCover(front, Total(front), max);
    } else {
      assert Total(front) == 0;
    }
  }

  lemma DivMod(n: int, max: int)
    requires max >= 1 && n >= 1
    ensures n - max * (n / max) == n % max
    ensures 0 <= n % max < max
    ensures n > max ==> n / max >= 1
  {
  }

  /**
   * The page plan of `Get_last_x_ticks_from_now` / `Get_last_x_bars_from_now`,
   * with the tail page sent as evidently intended: a count below one is
   * refused; up to `max` rows are one request from offset 0; otherwise
   * `n / max` full pages, then one page of the remaining `n % max` rows.
   */
  method PlanPages(n: int, max: int) returns (r: Result<seq<Page>, PagingError>)
    requires max >= 1
    ensures r.Err? <==> n < 1
    ensures r.Err? ==> r.error == InvalidCount
    ensures r.Ok? ==> Covers(r.value, n, max)
    ensures 1 <= n <= max ==> r == Ok([Page(0, n)])
    ensures n > max ==> r.Ok? && |r.value| == n / max + (if n % max == 0 then 0 else 1)
    ensures n > max ==> forall k :: 0 <= k < n / max ==> r.value[k] == Page(k * max, max)
  {
    if n < 1 {
      return Err(InvalidCount);
    }
    var loops := n / max;
    var tail := n - max * loops;
    if n > max {
      var pages: seq<Page> := [];
      for i := 0 to loops
        invariant pages == FullPages(i, max)
      {
        pages := pages + [Page(i * max, max)];
      }
      DivMod(n, max);
      if tail > 0 {
        pages := pages + [Page(loops * max, tail)];
      }
      assert pages == LongPages(n, max);
      LongPlan(n, max);
      r := Ok(pages);
    } else {
      CoversAppend([], 0, max, n);
      r := Ok([Page(0, n)]);
    }
  }

  /** The plan for more than `max` rows: full pages, then the remainder if there is one. */
  lemma LongPlan(n: int, max: int)
    requires max >= 1 && n > max
    ensures var pages := LongPages(n, max);
            && Covers(pages, n, max)
            && |pages| == n / max + (if n % max == 0 then 0 else 1)
            && forall k :: 0 <= k < n / max ==> pages[k] == Page(k * max, max)
  {
    var loops := n / max;
    DivMod(n, max);
    FullPagesCover(loops, max);
    FullPagesAt(loops, max);
    assert loops * max + n % max == n;
    if n % max > 0 {
      CoversAppend(FullPages(loops, max), loops * max, max, n % max);
      assert LongPages(n, max) == FullPages(loops, max) + [Page(loops * max, n % max)];
    } else {
      assert LongPages(n, max) == FullPages(loops, max);
    }
  }

  function LongPages(n: int, max: int): seq<Page>
    requires max >= 1 && n > max
  {
    FullPages(n / max, max) + (if n % max == 0 then [] else [Page((n / max) * max, n % max)])
  }

  /** No plan of pages of at most `max` rows covers `n` rows in fewer than `n / max` (rounded up) requests. */
  lemma FewestPages(pages: seq<Page>, n: int, max: int)
    requires max >= 1 && n >= 1 && Covers(pages, n, max)
    ensures |pages| * max >= n
    ensures |pages| >= n / max + (if n % max == 0 then 0 else 1)
  {
    TotalBound(pages, max);
    CeilingBound(|pages|, n, max);
  }

  /** A whole number of `max`-row pages holding `n` rows is at least `n / max` rounded up. */
  lemma CeilingBound(count: int, n: int, max: int)
    requires max >= 1 && n >= 1 && count * max >= n
    ensures count >= n / max + (if n % max == 0 then 0 else 1)
  {
    var q := n / max;
    var rest := n % max;
    DivMod(n, max);
    assert q * max == n - rest;
    var least := q + (if rest == 0 then 0 else 1);
    MulPred(least, max);
    assert (least - 1) * max < n;
    MulCancel(count, least - 1, max);
  }

  lemma MulPred(a: int, m: int)
    ensures (a - 1) * m == a * m - m
  {
  }

  lemma MulCancel(a: int, b: int, m: int)
    requires a * m > b * m && m >= 0
    ensures a > b
  {
  }

  lemma {:induction false} TotalBound(pages: seq<Page>, max: int)
    requires forall k :: 0 <= k < |pages| ==> pages[k].count <= max
    ensures Total(pages) <= |pages| * max
  {
    if |pages| > 0 {
      TotalBound(pages[..|pages| - 1], max);
    }
  }

  /**
   * The same plan as the source runs it: when there is a tail, the tail request
   * is sent with the undeclared name `command` (and, for ticks, the reply is then
   * assigned to a `const`), which throws and is caught as a failed page.
   */
  function PagesAsWritten(n: int, max: int): (r: Result<seq<Page>, PagingError>)
    requires max >= 1
    ensures r.Ok? ==> Covers(r.value, n, max)
  {
    var loops := n / max;
    var tail := n - max * loops;
    if n < 1 then Err(InvalidCount)
    else if n <= max then
      CoversAppend([], 0, max, n);
      Ok([Page(0, n)])
    else if tail > 0 then Err(PageFailed)
    else
      ExactFullPages(n, max);
      Ok(FullPages(loops, max))
  }

  /** A count that is an exact multiple of `max` is covered by that many full pages. */
  lemma ExactFullPages(n: int, max: int)
    requires max >= 1 && n >= 1 && n - max * (n / max) == 0
    ensures Covers(FullPages(n / max, max), n, max)
  {
    ExactMultiple(n, max);
    FullPagesCover(n / max, max);
  }

  lemma ExactMultiple(n: int, max: int)
    requires max >= 1 && n - max * (n / max) == 0
    ensures (n / max) * max == n
  {
  }

  /** `count` pages of `max` rows each, the k-th starting at `k * max`. */
  function FullPages(count: nat, max: int): (r: seq<Page>)
    requires max >= 1
    ensures |r| == count
  {
    if count == 0 then [] else FullPages(count - 1, max) + [Page((count - 1) * max, max)]
  }

  lemma {:induction false} FullPagesAt(count: nat, max: int)
    requires max >= 1
    ensures forall k :: 0 <= k < count ==> FullPages(count, max)[k] == Page(k * max, max)
  {
    if count > 0 {
      FullPagesAt(count - 1, max);
      var r := FullPages(count, max);
      assert r == FullPages(count - 1, max) + [Page((count - 1) * max, max)];
      assert forall k :: 0 <= k < count - 1 ==> r[k] == FullPages(count - 1, max)[k];
    }
  }

  lemma {:induction false} FullPagesCover(count: nat, max: int)
    requires max >= 1
    ensures Covers(FullPages(count, max), count * max, max)
  {
    if count > 0 {
      FullPagesCover(count - 1, max);
      CoversAppend(FullPages(count - 1, max), (count - 1) * max, max, max);
      MulPred(count, max);
    }
  }

  /** As written, every count above `max` that is not a multiple of `max` fails. */
  lemma TailAlwaysFails(n: int, max: int)
    requires max >= 1 && n > max && n % max != 0
    ensures PagesAsWritten(n, max) == Err(PageFailed)
  {
  }

  /** The smallest such count for ticks: 2001 ticks cannot be fetched. */
  lemma TailFailsAt2001()
    ensures PagesAsWritten(2001, MaxTicks) == Err(PageFailed)
    ensures PagesAsWritten(4000, MaxTicks).Ok? && PagesAsWritten(2000, MaxTicks).Ok?
  {
    TailAlwaysFails(2001, MaxTicks);
  }

  /**
   * The request for one page of ticks (`F021`): a frame of the codec whose
   * parameters are the broker name, the offset and the count, with one
   * trailing '^'.
   */
  function TickPageRequest(broker: string, page: Page): (r: string)
    ensures r == MakeMessage("F021", "4", [broker, IntToString(page.offset), IntToString(page.count)]) + Seps(1)
  {
    var off := IntToString(page.offset);
    var cnt := IntToString(page.count);
    MessageOfThree("F021", "4", broker, off, cnt);
    assert "F021^4^" == "F021" + [Sep] + "4" + [Sep];
    "F021^4^" + broker + "^" + off + "^" + cnt + "^"
  }

  /**
   * The request for one page of bars (`F042`): a frame of the codec whose
   * parameters are the broker name, the timeframe code, the offset and the
   * count, with one trailing '^'.
   */
  function BarPageRequest(broker: string, timeframe: int, page: Page): (r: string)
    ensures r == MakeMessage("F042", "5", [broker, IntToString(timeframe), IntToString(page.offset),
                                          IntToString(page.count)]) + Seps(1)
  {
    var tf := IntToString(timeframe);
    var off := IntToString(page.offset);
    var cnt := IntToString(page.count);
    MessageOfFour("F042", "5", broker, tf, off, cnt);
    assert "F042^5^" == "F042" + [Sep] + "5" + [Sep];
    "F042^5^" + broker + "^" + tf + "^" + off + "^" + cnt + "^"
  }

  /**
   * A tick page request is a well-formed frame: it parses back to the command
   * `F021`, sub-command `4` and exactly the broker name, offset and count.
   */
  lemma TickPageRequestParses(broker: string, page: Page)
    requires broker != "" && SepFree(broker)
    ensures var f := ParseResponse(TickPageRequest(broker, page));
            f.Ok? && f.value.command == "F021" && f.value.subCommand == "4"
            && |f.value.data| == 3 && f.value.data[0] == broker
            && ParseInt(f.value.data[1]) == Some(page.offset as int)
            && ParseInt(f.value.data[2]) == Some(page.count as int)
  {
    var off := IntToString(page.offset);
    var cnt := IntToString(page.count);
    IntToStringFree(page.offset, Sep);
    IntToStringFree(page.count, Sep);
    var ps := [broker, off, cnt];
    RoundTripTrailingSeps("F021", "4", ps, 1);
    ParseIntToString(page.offset);
    ParseIntToString(page.count);
  }

  /** The same for a bar page request: `F042`, sub-command `5`, broker, timeframe, offset, count. */
  lemma BarPageRequestParses(broker: string, timeframe: int, page: Page)
    requires broker != "" && SepFree(broker)
    ensures var f := ParseResponse(BarPageRequest(broker, timeframe, page));
            f.Ok? && f.value.command == "F042" && f.value.subCommand == "5"
            && |f.value.data| == 4 && f.value.data[0] == broker
            && ParseInt(f.value.data[1]) == Some(timeframe)
            && ParseInt(f.value.data[2]) == Some(page.offset as int)
            && ParseInt(f.value.data[3]) == Some(page.count as int)
  {
    IntToStringFree(timeframe, Sep);
    IntToStringFree(page.offset, Sep);
    IntToStringFree(page.count, Sep);
    var ps := [broker, IntToString(timeframe), IntToString(page.offset), IntToString(page.count)];
    RoundTripTrailingSeps("F042", "5", ps, 1);
    ParseIntToString(timeframe);
    ParseIntToString(page.offset);
    ParseIntToString(page.count);
  }

  /** The single request for at most `max` rows is the first page of the plan, written `^0^`. */
  lemma SingleRequestIsFirstPage(broker: string, n: nat)
    ensures TickPageRequest(broker, Page(0, n)) == "F021^4^" + broker + "^0^" + IntToString(n) + "^"
  {
    assert IntToString(0) == "0";
  }
}
