/**
 The loop progress reporter `LoopInfo`: a pair of counters owned by one
 loop. Each step bumps a lifetime count and a since-last-report count; once
 the latter reaches the trigger count a progress line is printed and it
 restarts from 0. The terminal call prints a summary.

 The object is modelled as an immutable state value and each call as a
 function returning the next state together with the lines it prints
 (timestamps omitted), so the printed output is ordinary data.
 */
module LoopProgress {

  /** A line the reporter prints, without its timestamp prefix. */
  datatype Line =
    | Started(attribname: string)              // "<time> - Start working on <attribname>"
    | Handled(count: nat, attribname: string)  // "<time> - <count> <attribname> handled"
    | Ended(count: nat, attribname: string)    // "<time> - <count> <attribname> handled - End."

  /** The reporter's fields: `attribname`, `triggercnt`, `rec_cnt`, `loop_cnt`. */
  datatype LoopInfo = LoopInfo(attribname: string, triggercnt: int, recCnt: nat, loopCnt: nat)

  /** What the constructor produces: the new reporter and its start line. */
  datatype Opened = Opened(info: LoopInfo, banner: Line)

  /** What a call produces: the reporter afterwards, the value it returns,
      and the lines it printed. */
  datatype Step = Step(info: LoopInfo, count: nat, printed: seq<Line>)

  /** The invariant of every reachable reporter: with a positive trigger
      count the since-last-report counter is the lifetime count modulo the
      trigger count, otherwise it is always 0. */
  predicate Valid(li: LoopInfo)
  {
    if li.triggercnt >= 1 then li.loopCnt == li.recCnt % li.triggercnt
    else li.loopCnt == 0
  }

  /** True when the `n`-th call reports progress: every multiple of the
      trigger count, or every call when the trigger count is not positive. */
  predicate Fires(n: nat, triggercnt: int)
  {
    triggercnt <= 0 || n % triggercnt == 0
  }

  /** `LoopInfo(attribname, triggercnt)`. */
  function New(attribname: string, triggercnt: int): (r: Opened)
    ensures r.info.recCnt == 0 && r.info.loopCnt == 0
    ensures r.info.attribname == attribname && r.info.triggercnt == triggercnt
    ensures Valid(r.info)
    ensures r.banner == Started(attribname)
  {
    Opened(LoopInfo(attribname, triggercnt, 0, 0), Started(attribname))
  }

  /** `info_loop`: count one iteration and report progress when due. */
  function InfoLoop(li: LoopInfo): (r: Step)
    ensures r.info.recCnt == li.recCnt + 1 && r.count == r.info.recCnt
    ensures r.info.attribname == li.attribname && r.info.triggercnt == li.triggercnt
    ensures r.printed == [] || r.printed == [Handled(r.count, li.attribname)]
    ensures Valid(li) ==> Valid(r.info)
    ensures Valid(li) ==> (r.printed != [] <==> Fires(r.count, li.triggercnt))
    ensures li.triggercnt <= 0 ==> r.printed != [] && r.info.loopCnt == 0
  {
    var recCnt := li.recCnt + 1;
    var loopCnt := li.loopCnt + 1;
    if loopCnt >= li.triggercnt then
      ModSucc(li.recCnt, li.triggercnt);
      Step(li.(recCnt := recCnt, loopCnt := 0), recCnt, [Handled(recCnt, li.attribname)])
    else
      ModSucc(li.recCnt, li.triggercnt);
      Step(li.(recCnt := recCnt, loopCnt := loopCnt), recCnt, [])
  }

  /** `end_loop`: print the summary and return the lifetime count. */
  function EndLoop(li: LoopInfo): (r: Step)
    ensures r.info == li
    ensures r.count == li.recCnt
    ensures r.printed == [Ended(li.recCnt, li.attribname)]
  {
    Step(li, li.recCnt, [Ended(li.recCnt, li.attribname)])
  }

  /** A positive multiple of a positive number is at least that number. */
  lemma MulAtLeast(x: int, n: int)
    requires x >= 1 && n >= 1
    ensures x * n >= n
  {
    assert x * n == (x - 1) * n + n;
    assert (x - 1) * n >= 0;
  }

  /** Division by a positive number is determined by quotient and remainder. */
  lemma DivModUnique(a: int, n: int, q: int, r: int)
    requires n >= 1 && 0 <= r < n && a == q * n + r
    ensures a / n == q && a % n == r
  {
    var q' := a / n;
    var r' := a % n;
    assert a == q' * n + r';
    if q' > q {
      assert (q' - q) * n == q' * n - q * n;
      MulAtLeast(q' - q, n);
    } else if q' < q {
      assert (q - q') * n == q * n - q' * n;
      MulAtLeast(q - q', n);
    }
  }

  /** Adding one to `a` either bumps the remainder or wraps it to 0 and bumps
      the quotient. */
  lemma ModSucc(a: nat, n: int)
    ensures n >= 1 ==> (a + 1) % n == (if a % n + 1 == n then 0 else a % n + 1)
    ensures n >= 1 ==> (a + 1) / n == (if a % n + 1 == n then a / n + 1 else a / n)
  {
    if n >= 1 {
      var q := a / n;
      var r := a % n;
      if r + 1 == n {
        DivModUnique(a + 1, n, q + 1, 0);
      } else {
        DivModUnique(a + 1, n, q, r + 1);
      }
    }
  }

  /** The reporter after `n` further `info_loop` calls, and everything those
      calls printed, in order. */
  function Repeat(li: LoopInfo, n: nat): (r: Step)
  {
    if n == 0 then Step(li, li.recCnt, [])
    else
      var before := Repeat(li, n - 1);
      var last := InfoLoop(before.info);
      Step(last.info, last.count, before.printed + last.printed)
  }

  /** `n` calls keep the invariant, add `n` to the lifetime count, and leave
      the attribname and trigger count alone. */
  lemma {:induction false} RepeatKeepsValid(li: LoopInfo, n: nat)
    requires Valid(li)
    ensures Valid(Repeat(li, n).info)
    ensures Repeat(li, n).info.recCnt == li.recCnt + n == Repeat(li, n).count
    ensures Repeat(li, n).info.attribname == li.attribname
    ensures Repeat(li, n).info.triggercnt == li.triggercnt
  {
    if n > 0 {
      RepeatKeepsValid(li, n - 1);
    }
  }

  /** The progress lines a reporter with trigger count `triggercnt >= 1`
      prints during its first `n` calls: one per multiple of the trigger
      count. */
  function MultiplesReport(attribname: string, triggercnt: int, n: nat): (s: seq<Line>)
    requires triggercnt >= 1
    ensures |s| == n / triggercnt
  {
    seq(n / triggercnt, k requires 0 <= k => Handled((k + 1) * triggercnt, attribname))
  }

  /** Call `n` adds its own count to the expected report exactly when it is
      a multiple of the trigger count. */
  lemma MultiplesReportStep(attribname: string, triggercnt: int, n: nat)
    requires triggercnt >= 1 && n >= 1
    ensures MultiplesReport(attribname, triggercnt, n)
            == MultiplesReport(attribname, triggercnt, n - 1)
               + (if n % triggercnt == 0 then [Handled(n, attribname)] else [])
  {
    var prev := MultiplesReport(attribname, triggercnt, n - 1);
    var cur := MultiplesReport(attribname, triggercnt, n);
    ModSucc(n - 1, triggercnt);
    if n % triggercnt == 0 {
      var q := n / triggercnt;
      DivModUnique(n, triggercnt, q, 0);
      assert |cur| == |prev| + 1;
      assert cur[q - 1] == Handled(n, attribname);
      assert cur == prev + [Handled(n, attribname)];
    } else {
      assert cur == prev;
    }
  }

  /** With a positive trigger count, after `n` calls from construction the
      since-last-report counter is `n % triggercnt`, and the calls printed
      exactly `n / triggercnt` progress lines, at counts triggercnt,
      2 * triggercnt, and so on. */
  lemma {:induction false} ProgressAtMultiples(attribname: string, triggercnt: int, n: nat)
    requires triggercnt >= 1
    ensures Repeat(New(attribname, triggercnt).info, n).info.loopCnt == n % triggercnt
    ensures Repeat(New(attribname, triggercnt).info, n).printed == MultiplesReport(attribname, triggercnt, n)
    ensures |Repeat(New(attribname, triggercnt).info, n).printed| == n / triggercnt
  {
    var li := New(attribname, triggercnt).info;
    if n > 0 {
      ProgressAtMultiples(attribname, triggercnt, n - 1);
      RepeatKeepsValid(li, n - 1);
      var before := Repeat(li, n - 1);
      var last := InfoLoop(before.info);
      assert last.count == n;
      assert last.printed == (if n % triggercnt == 0 then [Handled(n, attribname)] else []);
      MultiplesReportStep(attribname, triggercnt, n);
      RepeatKeepsValid(li, n);
    }
    assert Repeat(li, n).printed == MultiplesReport(attribname, triggercnt, n);
  }

  /** With a trigger count of 0 or less every call prints a progress line and
      the since-last-report counter stays 0. */
  lemma {:induction false} ProgressEveryCall(attribname: string, triggercnt: int, n: nat)
    requires triggercnt <= 0
    ensures Repeat(New(attribname, triggercnt).info, n).info.loopCnt == 0
    ensures Repeat(New(attribname, triggercnt).info, n).printed == seq(n, k requires 0 <= k => Handled(k + 1, attribname))
  {
    var li := New(attribname, triggercnt).info;
    if n > 0 {
      ProgressEveryCall(attribname, triggercnt, n - 1);
      RepeatKeepsValid(li, n - 1);
    }
  }

  /** After `n` calls from construction, `end_loop` returns `n` and its
      summary line carries `n`: the lifetime count is the number of calls. */
  lemma {:induction false} EndLoopCountsCalls(attribname: string, triggercnt: int, n: nat)
    ensures EndLoop(Repeat(New(attribname, triggercnt).info, n).info).count == n
    ensures EndLoop(Repeat(New(attribname, triggercnt).info, n).info).printed == [Ended(n, attribname)]
  {
    RepeatKeepsValid(New(attribname, triggercnt).info, n);
  }

  /** A reporter with trigger count N prints its first progress line on call
      N, which also resets the since-last-report counter; unless N is 1, call
      N + 1 prints nothing more. */
  lemma {:induction false} FirstReportAtTrigger(attribname: string, triggercnt: int)
    requires triggercnt >= 1
    ensures var atN := Repeat(New(attribname, triggercnt).info, triggercnt);
            atN.printed == [Handled(triggercnt, attribname)] && atN.info.loopCnt == 0
    ensures triggercnt >= 2 ==> Repeat(New(attribname, triggercnt).info, triggercnt + 1).printed == [Handled(triggercnt, attribname)]
  {
    ProgressAtMultiples(attribname, triggercnt, triggercnt);
    ProgressAtMultiples(attribname, triggercnt, triggercnt + 1);
    DivModUnique(triggercnt, triggercnt, 1, 0);
    if triggercnt >= 2 {
      DivModUnique(triggercnt + 1, triggercnt, 1, 1);
    }
  }
}
