/**
 * The pagination matrix: which page numbers, and where the `'...'`
 * markers go, for a list of `total` items shown `perPage` at a time with
 * `range` pages either side of the current one.
 *
 * `Range` is the library's `range` helper, `GetMainPages` its
 * `getMainPages` and `PaginationMatrix` its `paginationMatrix`; the two
 * methods are proved equal to the specification functions `MainPages` and
 * `Matrix`, and the lemmas below state what those functions guarantee.
 */
module Pagination {

  /** One entry of the matrix: a page link or the `'...'` marker. */
  datatype Entry = Page(n: int) | Ellipsis

  /** What a computation returns: a value, or the `RangeError` that
      `new Array(n)` throws for a negative length. */
  datatype Result<T> = Ok(value: T) | RangeError

  function Min(a: int, b: int): int { if a <= b then a else b }

  function Max(a: int, b: int): int { if a <= b then b else a }

  /** `x` forced into `[lo, hi]` (`lo` wins if the bounds cross). */
  function Clamp(x: int, lo: int, hi: int): int
  {
    if x < lo then lo else if x > hi then Max(hi, lo) else x
  }

  /** `Math.floor(a / b)` for integers. */
  function FloorDiv(a: int, b: int): (q: int)
    requires b != 0
    ensures b > 0 ==> q * b <= a < (q + 1) * b
    ensures b < 0 ==> q * (-b) <= -a < (q + 1) * (-b)
  {
    if b > 0 then a / b else (-a) / (-b)
  }

  /** The integers `lo, lo + 1, ..., hi - 1` (empty when `hi <= lo`). */
  function Interval(lo: int, hi: int): (s: seq<int>)
    ensures |s| == Max(hi - lo, 0)
    ensures forall i :: 0 <= i < |s| ==> s[i] == lo + i
  {
    seq(Max(hi - lo, 0), i => lo + i)
  }

  /** `range(start, stop, step)`: `Array.from(new Array(Math.floor((stop -
      start) / step)), (x, i) => start + i * step)`. The length is rounded
      DOWN, so a last partial step is dropped (`range(0, 5, 2)` is `[0, 2]`),
      and a negative length, or a zero step, throws. */
  function Range(start: int, stop: int, step: int): (r: Result<seq<int>>)
    ensures step > 0 ==> (r.Ok? <==> start <= stop)
    ensures step < 0 ==> (r.Ok? <==> stop <= start)
    ensures step == 0 ==> r.RangeError?
    ensures r.Ok? ==> forall i :: 0 <= i < |r.value| ==> r.value[i] == start + i * step
    ensures r.Ok? && step > 0 ==> |r.value| * step <= stop - start < (|r.value| + 1) * step
    ensures r.Ok? && step < 0 ==> |r.value| * (-step) <= start - stop < (|r.value| + 1) * (-step)
  {
    if step == 0 then RangeError
    else
      var n := FloorDiv(stop - start, step);
      FloorDivSign(stop - start, step);
      if n < 0 then RangeError else Ok(seq(n, i => start + i * step))
  }

  /** The rounded-down quotient is non-negative exactly when the quotient is. */
  lemma FloorDivSign(a: int, b: int)
    requires b != 0
    ensures FloorDiv(a, b) >= 0 <==> (if b > 0 then a >= 0 else a <= 0)
  {
    if b > 0 {
      QuotientSign(FloorDiv(a, b), b, a);
    } else {
      QuotientSign(FloorDiv(a, b), -b, -a);
    }
  }

  lemma QuotientSign(q: int, c: int, d: int)
    requires c > 0 && q * c <= d < (q + 1) * c
    ensures q >= 0 <==> d >= 0
  {
    if q >= 0 {
      MulNonNegative(q, c);
    } else {
      MulNonNegative(-(q + 1), c);
      assert -(q + 1) * c == -((q + 1) * c);
    }
  }

  lemma MulNonNegative(x: int, y: int)
    requires x >= 0 && y >= 0
    ensures x * y >= 0
  {
  }

  /** With step 1, `range(start, stop)` is exactly the half-open interval. */
  lemma RangeIsInterval(start: int, stop: int)
    requires start <= stop
    ensures Range(start, stop, 1) == Ok(Interval(start, stop))
  {
    assert Range(start, stop, 1).value == Interval(start, stop);
  }

  /** `Math.ceil(total / perPage)`. */
  function TotalPages(total: int, perPage: int): (t: int)
    requires perPage != 0
    ensures perPage > 0 ==> (t - 1) * perPage < total <= t * perPage
    ensures perPage < 0 ==> (t - 1) * (-perPage) < -total <= t * (-perPage)
  {
    if perPage > 0 then -FloorDiv(-total, perPage) else -FloorDiv(total, -perPage)
  }

  /** The main window as a closed form: `min(2 * range + 1, totalPages)`
      consecutive pages whose first page is `page - range` pushed into
      `[1, totalPages - 2 * range]`. A negative range makes `getMainPages`
      ask `range` for a negative length, and so does a negative page count. */
  function MainPages(page: int, range: int, totalPages: int): Result<seq<int>>
  {
    if range < 0 || totalPages < 0 then RangeError
    else
      var start := Clamp(page - range, 1, totalPages - 2 * range);
      Ok(Interval(start, start + Min(2 * range + 1, totalPages)))
  }

  /** `getMainPages({page, range, totalPages})`, step by step as the library
      computes it: centre on `page`, shift left if the window runs past the
      last page, then shift right if it starts at or before page 1. */
  method GetMainPages(page: int, range: int, totalPages: int) returns (r: Result<seq<int>>)
    ensures r == MainPages(page, range, totalPages)
  {
    var start := page - range;
    var end := page + range;
    if end > totalPages {
      end := totalPages;
      start := totalPages - range * 2;
      start := if start < 1 then 1 else start;
    }
    if start <= 1 {
      start := 1;
      end := Min(range * 2 + 1, totalPages);
    }
    r := Range(start, end + 1, 1);
    if range >= 0 && totalPages >= 0 {
      RangeIsInterval(start, end + 1);
    }
  }

  /** What the main window is: a non-empty run of consecutive pages inside
      `[1, totalPages]`, of length `min(2 * range + 1, totalPages)`, holding
      the current page whenever that page exists, and centred on it when the
      page is at least `range` pages away from both ends. */
  lemma MainPagesWindow(page: int, range: int, totalPages: int)
    requires range >= 0 && totalPages >= 1
    ensures MainPages(page, range, totalPages).Ok?
    ensures var w := MainPages(page, range, totalPages).value;
      && |w| == Min(2 * range + 1, totalPages)
      && (forall i :: 0 <= i < |w| ==> w[i] == w[0] + i)
      && 1 <= w[0] && w[|w| - 1] <= totalPages
      && (1 <= page <= totalPages ==> page in w)
      && (range < page <= totalPages - range ==> w[0] == page - range && w[|w| - 1] == page + range)
  {
    var w := MainPages(page, range, totalPages).value;
    if 1 <= page <= totalPages {
      assert w[page - w[0]] == page;
    }
  }

  /** The pages shown before the window: `range(1, first <= 3 ? first : 2)`,
      that is, pages `1 .. first - 1` when at most two are missing, or
      page 1 alone. */
  function PrePages(first: int): seq<int>
  {
    Interval(1, if first <= 3 then first else 2)
  }

  /** The pages shown after the window: `range(last >= totalPages - 2 ?
      last + 1 : totalPages, totalPages + 1)`. */
  function PostPages(last: int, totalPages: int): seq<int>
  {
    Interval(if last >= totalPages - 2 then last + 1 else totalPages, totalPages + 1)
  }

  /** The `forEach` walk over the page numbers: a page equal to the
      expected next page is appended, any other page is preceded by
      `'...'`; either way the expected page becomes the one after it. */
  function Walk(ps: seq<int>, next: int): seq<Entry>
  {
    if |ps| == 0 then []
    else
      (if ps[0] == next then [Page(ps[0])] else [Ellipsis, Page(ps[0])])
      + Walk(ps[1..], ps[0] + 1)
  }

  /** `paginationMatrix({total, page, perPage, range})` as a function. */
  function Matrix(total: int, page: int, perPage: int, range: int): Result<seq<Entry>>
    requires perPage != 0
  {
    var totalPages := TotalPages(total, perPage);
    if totalPages < 2 then Ok([Page(1)])
    else if range < 0 then RangeError
    else
      MainPagesWindow(page, range, totalPages);
      var main := MainPages(page, range, totalPages).value;
      Ok(Walk(Shown(main, totalPages), 1))
  }

  /** Every page number the matrix shows, in display order. */
  function Shown(main: seq<int>, totalPages: int): seq<int>
    requires |main| > 0
  {
    PrePages(main[0]) + main + PostPages(main[|main| - 1], totalPages)
  }

  /** `paginationMatrix`, imperatively: the early return, the window, the
      pre/post pages from `range`, and the walk that pushes onto `matrix`
      while it updates `nextPage`. */
  method PaginationMatrix(total: int, page: int, perPage: int, range: int)
    returns (m: Result<seq<Entry>>)
    requires perPage != 0
    ensures m == Matrix(total, page, perPage, range)
    ensures TotalPages(total, perPage) < 2 ==> m == Ok([Page(1)])
    ensures TotalPages(total, perPage) >= 2 ==> (m.Ok? <==> range >= 0)
  {
    var totalPages := TotalPages(total, perPage);
    if totalPages < 2 {
      return Ok([Page(1)]);
    }
    var mainPages := GetMainPages(page, range, totalPages);
    if mainPages.RangeError? {
      assert range < 0;
      return RangeError;
    }
    MainPagesWindow(page, range, totalPages);
    var main := mainPages.value;
    var first := main[0];
    var last := main[|main| - 1];
    var prePages := Range(1, if first <= 3 then first else 2, 1);
    var postPages := Range(if last >= totalPages - 2 then last + 1 else totalPages, totalPages + 1, 1);
    RangeIsInterval(1, if first <= 3 then first else 2);
    RangeIsInterval(if last >= totalPages - 2 then last + 1 else totalPages, totalPages + 1);
    assert prePages.value == PrePages(first);
    assert postPages.value == PostPages(last, totalPages);
    var all := prePages.value + main + postPages.value;

    var matrix := WalkPages(all);
    m := Ok(matrix);
  }

  /** The `forEach` over the concatenated pages, pushing onto `matrix` and
      updating the `nextPage` counter. */
  method WalkPages(all: seq<int>) returns (matrix: seq<Entry>)
    ensures matrix == Walk(all, 1)
  {
    matrix := [];
    var nextPage := 1;
    var i := 0;
    while i < |all|
      invariant 0 <= i <= |all|
      invariant matrix + Walk(all[i..], nextPage) == Walk(all, 1)
    {
      var p := all[i];
      WalkStep(all, i, nextPage);
      ghost var before := matrix;
      if p == nextPage {
        matrix := matrix + [Page(p)];
        nextPage := nextPage + 1;
      } else {
        matrix := matrix + [Ellipsis, Page(p)];
        nextPage := p + 1;
      }
      EntriesAssoc(before, matrix[|before|..], Walk(all[i + 1..], p + 1));
      i := i + 1;
    }
    assert all[i..] == [];
  }

  /** The walk from index `i` on is its first step and the walk after it. */
  lemma WalkStep(all: seq<int>, i: nat, next: int)
    requires i < |all|
    ensures Walk(all[i..], next)
         == (if all[i] == next then [Page(all[i])] else [Ellipsis, Page(all[i])]) + Walk(all[i + 1..], all[i] + 1)
  {
    assert all[i..][1..] == all[i + 1..];
  }

  lemma EntriesAssoc(a: seq<Entry>, b: seq<Entry>, c: seq<Entry>)
    ensures (a + b) + c == a + (b + c)
  {
  }

  /** The page numbers of a matrix, in order, without the markers. */
  function Numbers(m: seq<Entry>): seq<int>
  {
    if |m| == 0 then []
    else (if m[0].Page? then [m[0].n] else []) + Numbers(m[1..])
  }

  lemma {:induction false} NumbersAppend(a: seq<Entry>, b: seq<Entry>)
    ensures Numbers(a + b) == Numbers(a) + Numbers(b)
  {
    if |a| > 0 {
      assert (a + b)[1..] == a[1..] + b;
      assert (a + b)[0] == a[0];
      NumbersAppend(a[1..], b);
    } else {
      assert a + b == b;
    }
  }

  lemma {:induction false} NumbersMember(m: seq<Entry>, x: int)
    requires x in Numbers(m)
    ensures Page(x) in m
  {
    if m[0] != Page(x) {
      NumbersMember(m[1..], x);
    }
  }

  /** Page numbers in which every step is either to the next page or over
      at least two missing pages. */
  ghost predicate Steps(ps: seq<int>)
  {
    forall k :: 0 <= k < |ps| - 1 ==> ps[k + 1] == ps[k] + 1 || ps[k + 1] >= ps[k] + 3
  }

  /** The walk keeps the page numbers, in order. */
  lemma {:induction false} WalkNumbers(ps: seq<int>, next: int)
    ensures Numbers(Walk(ps, next)) == ps
    decreases |ps|
  {
    if |ps| > 0 {
      var p := ps[0];
      var h: seq<Entry> := if p == next then [Page(p)] else [Ellipsis, Page(p)];
      WalkNumbers(ps[1..], p + 1);
      NumbersAppend(h, Walk(ps[1..], p + 1));
      assert Numbers(h) == [p];
      assert ps == [p] + ps[1..];
    }
  }

  /** The walk ends with the last page, and starts with the expected page
      when it comes first. */
  lemma {:induction false} WalkEnds(ps: seq<int>, next: int)
    ensures var m := Walk(ps, next);
      && (|ps| > 0 ==> |m| > 0 && m[|m| - 1] == Page(ps[|ps| - 1]))
      && (|m| > 0 && m[0].Page? ==> m[0].n == next)
      && (|ps| > 0 && ps[0] == next ==> m[0] == Page(next))
    decreases |ps|
  {
    if |ps| > 1 {
      WalkEnds(ps[1..], ps[0] + 1);
    }
  }

  /** Two page links next to each other in the walk are consecutive pages. */
  lemma {:induction false} WalkAdjacent(ps: seq<int>, next: int)
    ensures var m := Walk(ps, next);
      forall j :: 0 <= j < |m| - 1 && m[j].Page? && m[j + 1].Page? ==> m[j + 1].n == m[j].n + 1
    decreases |ps|
  {
    if |ps| > 0 {
      var p := ps[0];
      var h: seq<Entry> := if p == next then [Page(p)] else [Ellipsis, Page(p)];
      var t := Walk(ps[1..], p + 1);
      var m := Walk(ps, next);
      assert m == h + t;
      WalkAdjacent(ps[1..], p + 1);
      WalkEnds(ps[1..], p + 1);
      forall j | 0 <= j < |m| - 1 && m[j].Page? && m[j + 1].Page?
        ensures m[j + 1].n == m[j].n + 1
      {
        if j >= |h| {
          assert m[j] == t[j - |h|] && m[j + 1] == t[j - |h| + 1];
        } else {
          assert j == |h| - 1 && m[j] == Page(p) && m[j + 1] == t[0];
        }
      }
    }
  }

  /** Every marker of `m` is followed by a page link, and stands for at
      least two missing pages: between its neighbours, or between the page
      before the first one (`next - 1`) and its successor. */
  ghost predicate MarkersBridge(m: seq<Entry>, next: int)
  {
    forall j :: 0 <= j < |m| && m[j].Ellipsis? ==>
      && j + 1 < |m| && m[j + 1].Page?
      && (j == 0 ==> m[1].n >= next + 2)
      && (j > 0 ==> m[j - 1].Page? && m[j + 1].n >= m[j - 1].n + 3)
  }

  /** Over page numbers that satisfy `Steps`, every marker of the walk is
      followed by a page link and stands for at least two missing pages. */
  lemma {:induction false} WalkMarkers(ps: seq<int>, next: int)
    requires Steps(ps)
    requires |ps| > 0 ==> ps[0] == next || ps[0] >= next + 2
    ensures MarkersBridge(Walk(ps, next), next)
    decreases |ps|
  {
    if |ps| > 0 {
      var p := ps[0];
      var h: seq<Entry> := if p == next then [Page(p)] else [Ellipsis, Page(p)];
      StepsTail(ps);
      assert |ps| > 1 ==> ps[1..][0] == ps[1];
      WalkMarkers(ps[1..], p + 1);
      BridgeCons(h, Walk(ps[1..], p + 1), p, next);
    }
  }

  lemma StepsTail(ps: seq<int>)
    requires Steps(ps) && |ps| > 0
    ensures Steps(ps[1..])
  {
    forall k | 0 <= k < |ps[1..]| - 1
      ensures ps[1..][k + 1] == ps[1..][k] + 1 || ps[1..][k + 1] >= ps[1..][k] + 3
    {
      assert ps[1..][k] == ps[k + 1] && ps[1..][k + 1] == ps[k + 2];
    }
  }

  /** One step of the walk keeps `MarkersBridge`. */
  lemma BridgeCons(h: seq<Entry>, t: seq<Entry>, p: int, next: int)
    requires (p == next && h == [Page(p)]) || (p >= next + 2 && h == [Ellipsis, Page(p)])
    requires MarkersBridge(t, p + 1)
    ensures MarkersBridge(h + t, next)
  {
    var m := h + t;
    forall j | 0 <= j < |m| && m[j].Ellipsis?
      ensures j + 1 < |m| && m[j + 1].Page?
      ensures j == 0 ==> m[1].n >= next + 2
      ensures j > 0 ==> m[j - 1].Page? && m[j + 1].n >= m[j - 1].n + 3
    {
      if j >= |h| {
        var jt := j - |h|;
        assert m[j] == t[jt];
        assert m[j + 1] == t[jt + 1];
        if jt == 0 {
          assert m[j - 1] == Page(p);
        } else {
          assert m[j - 1] == t[jt - 1];
        }
      } else {
        assert m[1] == Page(p);
      }
    }
  }

  lemma StepsAppend(a: seq<int>, b: seq<int>)
    requires Steps(a) && Steps(b)
    requires |a| > 0 && |b| > 0
    requires b[0] == a[|a| - 1] + 1 || b[0] >= a[|a| - 1] + 3
    ensures Steps(a + b)
  {
    var c := a + b;
    forall k | 0 <= k < |c| - 1
      ensures c[k + 1] == c[k] + 1 || c[k + 1] >= c[k] + 3
    {
      if k < |a| - 1 {
        assert c[k] == a[k] && c[k + 1] == a[k + 1];
      } else if k == |a| - 1 {
        assert c[k] == a[|a| - 1] && c[k + 1] == b[0];
      } else {
        assert c[k] == b[k - |a|] && c[k + 1] == b[k - |a| + 1];
      }
    }
  }

  lemma {:induction false} StepsIncrease(ps: seq<int>)
    requires Steps(ps)
    ensures forall i, j :: 0 <= i < j < |ps| ==> ps[i] < ps[j]
    decreases |ps|
  {
    if |ps| > 1 {
      StepsIncrease(ps[1..]);
      forall i, j | 0 <= i < j < |ps| ensures ps[i] < ps[j] {
        if i > 0 {
          assert ps[i] == ps[1..][i - 1] && ps[j] == ps[1..][j - 1];
        } else if j > 1 {
          assert ps[1] == ps[1..][0] && ps[j] == ps[1..][j - 1];
        }
      }
    }
  }

  /** The numbers the matrix shows, for any window that is a run of
      consecutive pages inside `[1, totalPages]`: they start at 1, end at
      `totalPages`, contain the window, and step either to the next page or
      over at least two missing pages (the `first <= 3` and
      `last >= totalPages - 2` thresholds). */
  lemma ShownSteps(main: seq<int>, totalPages: int)
    requires |main| > 0 && totalPages >= 2
    requires forall i :: 0 <= i < |main| ==> main[i] == main[0] + i
    requires 1 <= main[0] && main[|main| - 1] <= totalPages
    ensures var ps := Shown(main, totalPages);
      && ps[0] == 1 && ps[|ps| - 1] == totalPages
      && Steps(ps)
      && (forall x :: x in main ==> x in ps)
  {
    var first, last := main[0], main[|main| - 1];
    var pre, post := PrePages(first), PostPages(last, totalPages);
    ConsecutiveSteps(main);
    ConsecutiveSteps(pre);
    ConsecutiveSteps(post);
    var left := pre + main;
    ShownLeft(pre, main);
    ShownRight(left, post, totalPages);
    ShownKeeps(pre, main, post);
  }

  /** Consecutive numbers satisfy `Steps`. */
  lemma ConsecutiveSteps(s: seq<int>)
    requires forall i :: 0 <= i < |s| ==> s[i] == s[0] + i
    ensures Steps(s)
  {
    forall k | 0 <= k < |s| - 1 ensures s[k + 1] == s[k] + 1 {
    }
  }

  /** The pages before the window, then the window. */
  lemma ShownLeft(pre: seq<int>, main: seq<int>)
    requires |main| > 0 && 1 <= main[0]
    requires pre == PrePages(main[0])
    requires Steps(pre) && Steps(main)
    ensures var left := pre + main;
      && Steps(left) && left[0] == 1 && left[|left| - 1] == main[|main| - 1]
  {
    if |pre| > 0 {
      StepsAppend(pre, main);
    } else {
      assert pre + main == main;
    }
  }

  /** Then the pages after the window. */
  lemma ShownRight(left: seq<int>, post: seq<int>, totalPages: int)
    requires |left| > 0 && left[|left| - 1] <= totalPages
    requires post == PostPages(left[|left| - 1], totalPages)
    requires Steps(left) && Steps(post)
    ensures var ps := left + post;
      && Steps(ps) && ps[0] == left[0] && ps[|ps| - 1] == totalPages
  {
    if |post| > 0 {
      StepsAppend(left, post);
    } else {
      assert left + post == left;
    }
  }

  lemma ShownKeeps(pre: seq<int>, main: seq<int>, post: seq<int>)
    ensures forall x :: x in main ==> x in pre + main + post
  {
  }

  /** For two or more pages and a non-negative range, the matrix is the
      walk over `Shown`, which starts at page 1, ends at the last page and
      satisfies `Steps`. */
  lemma MatrixIsWalk(total: int, page: int, perPage: int, range: int)
    requires perPage != 0 && range >= 0
    requires TotalPages(total, perPage) >= 2
    ensures var totalPages := TotalPages(total, perPage);
      && MainPages(page, range, totalPages).Ok?
      && |MainPages(page, range, totalPages).value| > 0
      && var ps := Shown(MainPages(page, range, totalPages).value, totalPages);
      && Matrix(total, page, perPage, range) == Ok(Walk(ps, 1))
      && ps[0] == 1 && ps[|ps| - 1] == totalPages && Steps(ps)
      && (forall x :: x in MainPages(page, range, totalPages).value ==> x in ps)
  {
    var totalPages := TotalPages(total, perPage);
    MainPagesWindow(page, range, totalPages);
    ShownSteps(MainPages(page, range, totalPages).value, totalPages);
  }

  /** The matrix for at least two pages starts with page 1 and ends with
      the last page, and its page numbers strictly increase, so all of them
      lie in `[1, totalPages]`. */
  lemma MatrixOrdered(total: int, page: int, perPage: int, range: int)
    requires perPage != 0 && range >= 0
    requires TotalPages(total, perPage) >= 2
    ensures Matrix(total, page, perPage, range).Ok?
    ensures var totalPages := TotalPages(total, perPage);
      var m := Matrix(total, page, perPage, range).value;
      var ns := Numbers(m);
      && |m| > 0 && m[0] == Page(1) && m[|m| - 1] == Page(totalPages)
      && (forall i, j :: 0 <= i < j < |ns| ==> ns[i] < ns[j])
      && (forall i :: 0 <= i < |ns| ==> 1 <= ns[i] <= totalPages)
  {
    var totalPages := TotalPages(total, perPage);
    MatrixIsWalk(total, page, perPage, range);
    var ps := Shown(MainPages(page, range, totalPages).value, totalPages);
    WalkNumbers(ps, 1);
    WalkEnds(ps, 1);
    StepsIncrease(ps);
    forall i | 0 <= i < |ps| ensures 1 <= ps[i] <= totalPages {
      if i > 0 { assert ps[0] < ps[i]; }
      if i < |ps| - 1 { assert ps[i] < ps[|ps| - 1]; }
    }
  }

  /** In the matrix for at least two pages, two adjacent page links are
      consecutive pages, and every `'...'` sits between two page links (so
      it is never first, never last and never next to another marker) that
      are at least three apart: it stands for two or more hidden pages. */
  lemma MatrixMarkers(total: int, page: int, perPage: int, range: int)
    requires perPage != 0 && range >= 0
    requires TotalPages(total, perPage) >= 2
    ensures Matrix(total, page, perPage, range).Ok?
    ensures var m := Matrix(total, page, perPage, range).value;
      && (forall j :: 0 <= j < |m| - 1 && m[j].Page? && m[j + 1].Page? ==> m[j + 1].n == m[j].n + 1)
      && (forall j :: 0 <= j < |m| && m[j].Ellipsis? ==>
            && 0 < j < |m| - 1 && m[j - 1].Page? && m[j + 1].Page?
            && m[j + 1].n >= m[j - 1].n + 3)
  {
    var totalPages := TotalPages(total, perPage);
    MatrixIsWalk(total, page, perPage, range);
    var ps := Shown(MainPages(page, range, totalPages).value, totalPages);
    WalkAdjacent(ps, 1);
    WalkMarkers(ps, 1);
    WalkEnds(ps, 1);
    var m := Walk(ps, 1);
    assert MarkersBridge(m, 1);
    assert m[0] == Page(1);
  }

  /** The matrix for at least two pages shows every page of the main
      window, and so the current page whenever it exists. */
  lemma MatrixShowsWindow(total: int, page: int, perPage: int, range: int)
    requires perPage != 0 && range >= 0
    requires TotalPages(total, perPage) >= 2
    ensures Matrix(total, page, perPage, range).Ok?
    ensures var totalPages := TotalPages(total, perPage);
      var m := Matrix(total, page, perPage, range).value;
      && (forall x :: x in MainPages(page, range, totalPages).value ==> Page(x) in m)
      && (1 <= page <= totalPages ==> Page(page) in m)
  {
    var totalPages := TotalPages(total, perPage);
    MatrixIsWalk(total, page, perPage, range);
    MainPagesWindow(page, range, totalPages);
    var ps := Shown(MainPages(page, range, totalPages).value, totalPages);
    WalkNumbers(ps, 1);
    forall x | x in MainPages(page, range, totalPages).value ensures Page(x) in Walk(ps, 1) {
      NumbersMember(Walk(ps, 1), x);
    }
  }

  /** The defaults of the library (`total: 200, page: 1, perPage: 10,
      range: 3`) give twenty pages, a window of seven, and one marker. */
  lemma DefaultMatrix()
    ensures Matrix(200, 1, 10, 3) == Ok([Page(1), Page(2), Page(3), Page(4),
      Page(5), Page(6), Page(7), Ellipsis, Page(20)])
  {
    DefaultShown();
    DefaultWalk();
  }

  lemma DefaultShown()
    ensures TotalPages(200, 10) == 20
    ensures Shown(MainPages(1, 3, 20).value, 20) == [1, 2, 3, 4, 5, 6, 7, 20]
  {
    assert TotalPages(200, 10) == 20;
    var main := MainPages(1, 3, 20).value;
    assert main == [1, 2, 3, 4, 5, 6, 7];
    assert PrePages(1) == [];
    assert PostPages(7, 20) == [20];
  }

  lemma DefaultWalk()
    ensures Walk([1, 2, 3, 4, 5, 6, 7, 20], 1)
      == [Page(1), Page(2), Page(3), Page(4), Page(5), Page(6), Page(7), Ellipsis, Page(20)]
  {
    assert Run(1, 7) == [1, 2, 3, 4, 5, 6, 7];
    assert [1, 2, 3, 4, 5, 6, 7, 20] == Run(1, 7) + [20];
    WalkRun(1, 7, [20]);
    assert Walk([20], 8) == [Ellipsis, Page(20)];
    assert RunPages(1, 7) == [Page(1), Page(2), Page(3), Page(4), Page(5), Page(6), Page(7)];
  }

  /** The pages `a`, `a + 1`, …, `n` of them. */
  function Run(a: int, n: nat): seq<int>
    decreases n
  {
    if n == 0 then [] else [a] + Run(a + 1, n - 1)
  }

  function RunPages(a: int, n: nat): seq<Entry>
    decreases n
  {
    if n == 0 then [] else [Page(a)] + RunPages(a + 1, n - 1)
  }

  /** A run of consecutive pages starting at the expected one is shown
      without a marker. */
  lemma {:induction false} WalkRun(a: int, n: nat, rest: seq<int>)
    ensures Walk(Run(a, n) + rest, a) == RunPages(a, n) + Walk(rest, a + n)
    decreases n
  {
    if n == 0 {
      assert Run(a, n) + rest == rest;
    } else {
      var tail := Run(a + 1, n - 1) + rest;
      assert Run(a, n) + rest == [a] + tail;
      assert ([a] + tail)[1..] == tail;
      WalkRun(a + 1, n - 1, rest);
    }
  }

  /** Two pages are both shown, and an empty list still shows page 1. */
  lemma SmallMatrices()
    ensures Matrix(20, 1, 10, 3) == Ok([Page(1), Page(2)])
    ensures Matrix(0, 1, 10, 3) == Ok([Page(1)])
  {
    assert TotalPages(20, 10) == 2;
    assert MainPages(1, 3, 2).value == [1, 2];
    assert PrePages(1) == [] && PostPages(2, 2) == [];
    assert Shown([1, 2], 2) == [1, 2];
    assert Walk([2], 2) == [Page(2)];
    assert Walk([1, 2], 1) == [Page(1), Page(2)];
    assert TotalPages(0, 10) == 0;
  }
}
