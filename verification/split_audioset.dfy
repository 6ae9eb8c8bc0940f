/** The maintenance script `utils/split_audioset.py`: drop the three comment lines of a
    segments table and cut the remaining lines into `n` consecutive files whose bounds are
    `i * L / n` (integer division), then check that the files read back in order give the
    body again. The script fixes `n` at 10; the model takes any `n >= 1`. */
module SplitAudioset {
  import opened Wrappers
  import Seqs

  /** One line of the table, kept verbatim (newline included). */
  type Line = string

  /** Comment lines at the top of a segments table. */
  const HeaderLines: nat := 3

  /** The number of output files the script writes. */
  const NumFiles: nat := 10

  /** `lines[3:]`: everything after the three header lines, empty for shorter inputs. */
  function Body(lines: seq<Line>): (r: seq<Line>)
    ensures |r| == if |lines| <= HeaderLines then 0 else |lines| - HeaderLines
    ensures forall i :: 0 <= i < |r| ==> r[i] == lines[i + HeaderLines]
  {
    if |lines| <= HeaderLines then [] else lines[HeaderLines..]
  }

  /** `i * len(lines) // num_files`: where slice `i` starts (and slice `i - 1` ends). */
  function Bound(i: nat, len: nat, n: nat): nat
    requires n >= 1
  {
    i * len / n
  }

  lemma MulAtLeast(n: int, d: int)
    requires n > 0
    ensures d >= 1 ==> n * d >= n
    ensures d <= -1 ==> n * d <= -n
  {
  }

  lemma MulMonotone(i: nat, j: nat, len: nat)
    requires i <= j
    ensures i * len <= j * len
  {
  }

  /** Euclidean division is determined by any quotient/remainder pair. */
  lemma DivUnique(x: int, n: int, k: int, r: int)
    requires n > 0 && 0 <= r < n && x == n * k + r
    ensures x / n == k
  {
    var q := x / n;
    assert x == n * q + x % n;
    assert n * (k - q) == x % n - r;
    MulAtLeast(n, k - q);
  }

  lemma DivMonotone(a: int, b: int, n: int)
    requires n > 0 && 0 <= a <= b
    ensures a / n <= b / n
  {
    var qa, qb := a / n, b / n;
    assert a == n * qa + a % n && b == n * qb + b % n;
    assert n * (qa - qb) == a - b + b % n - a % n;
    MulAtLeast(n, qa - qb);
  }

  /** The first slice starts at 0 and the last one ends at the body's length. */
  lemma BoundEnds(len: nat, n: nat)
    requires n >= 1
    ensures Bound(0, len, n) == 0
    ensures Bound(n, len, n) == len
  {
    DivUnique(n * len, n, len, 0);
  }

  /** Bounds never decrease and never pass the body's length, so every slice is valid. */
  lemma BoundMonotone(i: nat, j: nat, len: nat, n: nat)
    requires n >= 1 && i <= j <= n
    ensures 0 <= Bound(i, len, n) <= Bound(j, len, n) <= len
  {
    MulMonotone(i, j, len);
    MulMonotone(j, n, len);
    DivMonotone(i * len, j * len, n);
    DivMonotone(j * len, n * len, n);
    BoundEnds(len, n);
  }

  /** Every slice holds `len / n` lines or one more: the lines are spread evenly. */
  lemma SliceLength(i: nat, len: nat, n: nat)
    requires n >= 1
    ensures Bound(i + 1, len, n) - Bound(i, len, n) == len / n ||
            Bound(i + 1, len, n) - Bound(i, len, n) == len / n + 1
  {
    var a := i * len;
    var qa, ra := a / n, a % n;
    var q, s := len / n, len % n;
    assert (i + 1) * len == a + len;
    assert a + len == n * (qa + q) + (ra + s) by {
      assert a == n * qa + ra;
      assert len == n * q + s;
    }
    if ra + s < n {
      DivUnique(a + len, n, qa + q, ra + s);
    } else {
      assert a + len == n * (qa + q + 1) + (ra + s - n);
      DivUnique(a + len, n, qa + q + 1, ra + s - n);
    }
  }

  /** Slice `i` of the body: `lines[start:end]`. */
  function Slice(body: seq<Line>, i: nat, n: nat): (r: seq<Line>)
    requires n >= 1 && i < n
    ensures |r| == Bound(i + 1, |body|, n) - Bound(i, |body|, n)
  {
    BoundMonotone(i, i + 1, |body|, n);
    body[Bound(i, |body|, n)..Bound(i + 1, |body|, n)]
  }

  /** Slices `i`, ..., `n - 1`, in order. */
  function SlicesFrom(body: seq<Line>, i: nat, n: nat): (r: seq<seq<Line>>)
    requires n >= 1 && i <= n
    ensures |r| == n - i
    ensures forall k :: 0 <= k < n - i ==> r[k] == Slice(body, i + k, n)
    decreases n - i
  {
    if i == n then [] else [Slice(body, i, n)] + SlicesFrom(body, i + 1, n)
  }

  /** Slices `i`, ..., `n - 1` read back in order give the body from bound `i` on. */
  lemma {:induction false} ConcatSlicesFrom(body: seq<Line>, i: nat, n: nat)
    requires n >= 1 && i <= n
    ensures Bound(i, |body|, n) <= |body|
    ensures Seqs.Concat(SlicesFrom(body, i, n)) == body[Bound(i, |body|, n)..]
    decreases n - i
  {
    BoundMonotone(i, n, |body|, n);
    if i == n {
      BoundEnds(|body|, n);
    } else {
      ConcatSlicesFrom(body, i + 1, n);
      BoundMonotone(i, i + 1, |body|, n);
      var lo, mid := Bound(i, |body|, n), Bound(i + 1, |body|, n);
      var parts := SlicesFrom(body, i, n);
      assert parts[0] == body[lo..mid];
      assert parts[1..] == SlicesFrom(body, i + 1, n);
      assert body[lo..] == body[lo..mid] + body[mid..];
    }
  }

  /** The files the script writes, in order: `n` slices that together are the body. */
  function Chunks(body: seq<Line>, n: nat): (r: seq<seq<Line>>)
    requires n >= 1
    ensures |r| == n
    ensures forall k :: 0 <= k < n ==> r[k] == Slice(body, k, n)
    ensures Seqs.Concat(r) == body
  {
    ConcatSlicesFrom(body, 0, n);
    BoundEnds(|body|, n);
    SlicesFrom(body, 0, n)
  }

  /** The `zip` loop of the script: the first position where the two sequences differ. */
  method FirstDifference(a: seq<Line>, b: seq<Line>) returns (d: Option<nat>)
    ensures d.None? <==> forall i :: 0 <= i < |a| && i < |b| ==> a[i] == b[i]
    ensures d.Some? ==> d.value < |a| && d.value < |b| && a[d.value] != b[d.value]
    ensures d.Some? ==> forall i :: 0 <= i < d.value ==> a[i] == b[i]
  {
    var i := 0;
    while i < |a| && i < |b|
      invariant 0 <= i
      invariant i <= |a| && i <= |b|
      invariant forall j :: 0 <= j < i ==> a[j] == b[j]
    {
      if a[i] != b[i] {
        return Some(i);
      }
      i := i + 1;
    }
    return None;
  }

  /** `main` with `num_files = n`: write each slice of the body to its own file, read all files
      back in order, and compare. The length check the script asserts always passes and no
      differing line is ever reported. */
  method Split(lines: seq<Line>, n: nat) returns (files: seq<seq<Line>>, concat: seq<Line>, firstDiff: Option<nat>)
    requires n >= 1
    ensures |files| == n
    ensures forall i :: 0 <= i < n ==> files[i] == Slice(Body(lines), i, n)
    ensures |concat| == |Body(lines)|
    ensures concat == Body(lines)
    ensures firstDiff.None?
  {
    var body := Body(lines);
    files := [];
    var i := 0;
    while i < n
      invariant i <= n
      invariant |files| == i
      invariant forall k :: 0 <= k < i ==> files[k] == Slice(body, k, n)
    {
      files := files + [Slice(body, i, n)];
      i := i + 1;
    }
    assert files == Chunks(body, n);
    concat := [];
    i := 0;
    while i < n
      invariant i <= n
      invariant concat == Seqs.Concat(files[..i])
    {
      Seqs.ConcatAppend(files[..i], files[i]);
      assert files[..i + 1] == files[..i] + [files[i]];
      concat := concat + files[i];
      i := i + 1;
    }
    assert files[..n] == files;
    firstDiff := FirstDifference(body, concat);
  }

  /** `main` as written, with its fixed `num_files` of ten: ten files whose read-back equals
      the body, so the assertion holds and no differing line is reported. */
  method SplitUnbalancedTrain(lines: seq<Line>) returns (files: seq<seq<Line>>, firstDiff: Option<nat>)
    ensures |files| == NumFiles
    ensures Seqs.Concat(files) == Body(lines)
    ensures firstDiff.None?
  {
    var concat;
    files, concat, firstDiff := Split(lines, NumFiles);
    assert files == Chunks(Body(lines), NumFiles);
  }
}
