/** Vocabulary shared by the disk engine, its garbage collectors and the simulation driver:
    the status of a page, the outcome of a raw operation, and counting over a block's pages. */
module NandCommon {

  /** The status of one physical page. */
  datatype PageStatus = PageEmpty | PageInUse | PageDirty

  /** The second component of every raw/host operation result. */
  datatype OpStatus = OperationSuccess | OperationFailedDirty | OperationFailedDiskFull

  /** What a write or read reports: (done, status), as the engine returns it. */
  type WriteOutcome = (bool, OpStatus)

  datatype Option<+T> = None | Some(value: T)

  datatype Result<+T, +E> = Success(value: T) | Failure(error: E)

  /** Number of pages of status `x` in `s`. */
  function Count(s: seq<PageStatus>, x: PageStatus): (n: nat)
    ensures n <= |s|
  {
    if |s| == 0 then 0 else Count(s[..|s| - 1], x) + (if s[|s| - 1] == x then 1 else 0)
  }

  /** Lowest index of a page of status `x`, or |s| when there is none. */
  function FirstIndexOf(s: seq<PageStatus>, x: PageStatus): (i: nat)
    ensures i <= |s|
    ensures i < |s| ==> s[i] == x
    ensures forall j :: 0 <= j < i ==> s[j] != x
  {
    if |s| == 0 then 0 else if s[0] == x then 0 else 1 + FirstIndexOf(s[1..], x)
  }

  /** Extending a prefix by one page adds that page to the count. */
  lemma CountPrefix(s: seq<PageStatus>, i: nat, x: PageStatus)
    requires i < |s|
    ensures Count(s[..i + 1], x) == Count(s[..i], x) + (if s[i] == x then 1 else 0)
  {
    assert s[..i + 1][..i] == s[..i];
  }

  /** Overwriting one page moves it from the count of its old status to that of its new one. */
  lemma {:induction false} CountUpdate(s: seq<PageStatus>, i: nat, y: PageStatus, x: PageStatus)
    requires i < |s|
    ensures Count(s[i := y], x)
            == Count(s, x) - (if s[i] == x then 1 else 0) + (if y == x then 1 else 0)
    decreases |s|
  {
    var t := s[i := y];
    var n := |s| - 1;
    assert t[..n] == if i < n then s[..n][i := y] else s[..n];
    if i < n {
      CountUpdate(s[..n], i, y, x);
    }
  }

  /** Every page has exactly one of the three statuses. */
  lemma {:induction false} CountPartition(s: seq<PageStatus>)
    ensures Count(s, PageEmpty) + Count(s, PageInUse) + Count(s, PageDirty) == |s|
    decreases |s|
  {
    if |s| > 0 {
      CountPartition(s[..|s| - 1]);
    }
  }

  /** A block whose pages all have status `v`. */
  lemma {:induction false} CountUniform(n: nat, v: PageStatus, x: PageStatus)
    ensures Count(seq(n, _ => v), x) == if v == x then n else 0
    decreases n
  {
    if n > 0 {
      var s := seq(n, _ => v);
      assert s[..n - 1] == seq(n - 1, _ => v);
      CountUniform(n - 1, v, x);
    }
  }

  /** A positive count means the first-index search finds a page. */
  lemma {:induction false} CountPositiveFound(s: seq<PageStatus>, x: PageStatus)
    requires Count(s, x) > 0
    ensures FirstIndexOf(s, x) < |s|
    decreases |s|
  {
    var n := |s| - 1;
    if s[n] != x {
      CountPositiveFound(s[..n], x);
      var i := FirstIndexOf(s[..n], x);
      assert s[i] == x;
    }
  }

  /** The total cost of `n` operations costing `t` each, accumulated one at a time as the
      engine does. */
  function Times(n: nat, t: int): (r: int)
    ensures t >= 0 ==> r >= 0
  {
    if n == 0 then 0 else Times(n - 1, t) + t
  }

  lemma {:induction false} TimesIsProduct(n: nat, t: int)
    ensures Times(n, t) == n * t
    decreases n
  {
    if n > 0 {
      TimesIsProduct(n - 1, t);
    }
  }
}
