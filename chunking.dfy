/** `chunkArray(array, size)`: contiguous slices of `size` elements, the last one
    possibly shorter. popup.js cuts requestable fields into composite batches of 5
    with it; report.js cuts chart data into pages of 50. */
module Chunking {

  function Min(a: int, b: int): int {
    if a <= b then a else b
  }

  /** ⌈n / d⌉ */
  function CeilDiv(n: nat, d: nat): nat
    requires d > 0
  {
    (n + d - 1) / d
  }

  function Flatten<T>(xss: seq<seq<T>>): seq<T> {
    if xss == [] then [] else xss[0] + Flatten(xss[1..])
  }

  lemma {:induction false} FlattenAppend<T>(a: seq<seq<T>>, b: seq<seq<T>>)
    ensures Flatten(a + b) == Flatten(a) + Flatten(b)
  {
    if a == [] {
      assert a + b == b;
    } else {
      assert (a + b)[1..] == a[1..] + b;
      FlattenAppend(a[1..], b);
    }
  }

  /** The chunks of `a`, defined by peeling one full chunk at a time. */
  function Chunks<T>(a: seq<T>, size: nat): seq<seq<T>>
    requires size > 0
    decreases |a|
  {
    if |a| == 0 then []
    else if |a| <= size then [a]
    else [a[..size]] + Chunks(a[size..], size)
  }

  /** Joined back together the chunks give `a`; every chunk is non-empty and at most
      `size` long, and every chunk but the last is exactly `size` long. */
  lemma {:induction false} ChunksShape<T>(a: seq<T>, size: nat)
    requires size > 0
    ensures Flatten(Chunks(a, size)) == a
    ensures forall i :: 0 <= i < |Chunks(a, size)| ==> 0 < |Chunks(a, size)[i]| <= size
    ensures forall i :: 0 <= i < |Chunks(a, size)| - 1 ==> |Chunks(a, size)[i]| == size
    decreases |a|
  {
    var r := Chunks(a, size);
    if |a| == 0 {
    } else if |a| <= size {
      assert r == [a];
      assert Flatten(r) == a + Flatten([]);
    } else {
      var rest := Chunks(a[size..], size);
      ChunksShape(a[size..], size);
      assert r == [a[..size]] + rest;
      assert r[1..] == rest;
      assert Flatten(r) == a[..size] + Flatten(rest);
      assert forall i :: 1 <= i < |r| ==> r[i] == rest[i - 1];
    }
  }

  /** Chunk `i` alone: non-empty, at most `size` long, exactly `size` unless last. */
  lemma ChunkLength<T>(a: seq<T>, size: nat, i: nat)
    requires size > 0 && i < |Chunks(a, size)|
    ensures 0 < |Chunks(a, size)[i]| <= size
    ensures i < |Chunks(a, size)| - 1 ==> |Chunks(a, size)[i]| == size
  {
    ChunksShape(a, size);
  }

  lemma MulDistrib(d: int, a: int, b: int)
    ensures d * a == d * b + d * (a - b)
  {
  }

  lemma MulAtLeast(d: nat, a: nat)
    requires a >= 1
    ensures d * a >= d
  {
    if a > 1 {
      MulAtLeast(d, a - 1);
      MulDistrib(d, a, a - 1);
    }
  }

  lemma DivUnique(q: int, r: int, d: int)
    requires d > 0 && 0 <= r < d
    ensures (d * q + r) / d == q
  {
    var x := d * q + r;
    var q', r' := x / d, x % d;
    assert x == d * q' + r' && 0 <= r' < d;
    if q' > q {
      MulAtLeast(d, q' - q);
      MulDistrib(d, q', q);
    } else if q' < q {
      MulAtLeast(d, q - q');
      MulDistrib(d, q, q');
    }
  }

  lemma DivOfRange(x: nat, d: nat)
    requires 0 < d <= x < 2 * d
    ensures x / d == 1
  {
    DivUnique(1, x - d, d);
  }

  lemma DivPlusOne(x: nat, d: nat)
    requires d > 0
    ensures (x + d) / d == x / d + 1
  {
    var q, r := x / d, x % d;
    assert x + d == d * (q + 1) + r;
    DivUnique(q + 1, r, d);
  }

  lemma MulPred(k: nat, size: nat)
    requires k > 0
    ensures (k - 1) * size + size == k * size
  {
  }

  /** There are ⌈|a| / size⌉ chunks. */
  lemma {:induction false} ChunkCount<T>(a: seq<T>, size: nat)
    requires size > 0
    ensures |Chunks(a, size)| == CeilDiv(|a|, size)
    decreases |a|
  {
    if |a| == 0 {
    } else if |a| <= size {
      DivOfRange(|a| + size - 1, size);
    } else {
      ChunkCount(a[size..], size);
      DivPlusOne(|a| - 1, size);
      assert |a[size..]| + size - 1 + size == |a| + size - 1;
    }
  }

  lemma SliceOfSuffix<T>(a: seq<T>, k: nat, lo: nat, hi: nat)
    requires k <= |a| && lo <= hi <= |a| - k
    ensures a[k..][lo..hi] == a[k + lo..k + hi]
  {
  }

  /** `i * size`, counted up one chunk at a time. */
  function Start(i: nat, size: nat): nat {
    if i == 0 then 0 else Start(i - 1, size) + size
  }

  lemma {:induction false} StartIsProduct(i: nat, size: nat)
    ensures Start(i, size) == i * size
  {
    if i > 0 {
      StartIsProduct(i - 1, size);
      MulPred(i, size);
    }
  }

  lemma {:induction false} ChunkAtStart<T>(a: seq<T>, size: nat, i: nat)
    requires size > 0 && i < |Chunks(a, size)|
    ensures Start(i, size) + |Chunks(a, size)[i]| <= |a|
    ensures Chunks(a, size)[i] == a[Start(i, size) .. Start(i, size) + |Chunks(a, size)[i]|]
    decreases |a|
  {
    var r := Chunks(a, size);
    var len := |r[i]|;
    if i > 0 {
      assert |a| > size;
      var tail := a[size..];
      var rest := Chunks(tail, size);
      assert r == [a[..size]] + rest;
      assert r[i] == rest[i - 1];
      ChunkAtStart(tail, size, i - 1);
      var lo := Start(i - 1, size);
      assert rest[i - 1] == tail[lo..lo + len];
      SliceOfSuffix(a, size, lo, lo + len);
    } else if |a| <= size {
      assert r == [a];
    } else {
      assert r[0] == a[..size];
    }
  }

  /** Chunk `i` is the slice of its own length that starts at `i * size`. */
  lemma ChunkAt<T>(a: seq<T>, size: nat, i: nat)
    requires size > 0 && i < |Chunks(a, size)|
    ensures i * size + |Chunks(a, size)[i]| <= |a|
    ensures Chunks(a, size)[i] == a[i * size .. i * size + |Chunks(a, size)[i]|]
  {
    ChunkAtStart(a, size, i);
    StartIsProduct(i, size);
  }

  /** The chunks before chunk `k` hold exactly the first `k * size` elements. */
  lemma {:induction false} ChunksBefore<T>(a: seq<T>, size: nat, k: nat)
    requires size > 0 && k < |Chunks(a, size)|
    ensures |Flatten(Chunks(a, size)[..k])| == k * size
    decreases |a|
  {
    var r := Chunks(a, size);
    if k > 0 {
      assert |a| > size;
      var rest := Chunks(a[size..], size);
      ChunksBefore(a[size..], size, k - 1);
      assert r[..k] == [a[..size]] + rest[..k - 1];
      FlattenAppend([a[..size]], rest[..k - 1]);
      assert Flatten([a[..size]]) == a[..size] + Flatten([]);
      MulPred(k, size);
    } else {
      assert r[..k] == [];
    }
  }

  /** Element `j` of part `k` sits after everything in the parts before `k`. */
  lemma FlattenIndex<T>(xss: seq<seq<T>>, k: nat, j: nat)
    requires k < |xss| && j < |xss[k]|
    ensures |Flatten(xss[..k])| + j < |Flatten(xss)|
    ensures Flatten(xss)[|Flatten(xss[..k])| + j] == xss[k][j]
  {
    assert xss == xss[..k] + xss[k..];
    FlattenAppend(xss[..k], xss[k..]);
    assert Flatten(xss[k..]) == xss[k] + Flatten(xss[k + 1..]);
  }

  lemma FlattenSnoc<T>(xss: seq<seq<T>>, k: nat)
    requires k < |xss|
    ensures Flatten(xss[..k + 1]) == Flatten(xss[..k]) + xss[k]
  {
    assert xss[..k + 1] == xss[..k] + [xss[k]];
    FlattenAppend(xss[..k], [xss[k]]);
    assert Flatten([xss[k]]) == xss[k] + Flatten([]);
  }

  /** Parts of equal lengths flatten to sequences of equal length. */
  lemma {:induction false} FlattenSameLength<T, U>(xss: seq<seq<T>>, yss: seq<seq<U>>)
    requires |xss| == |yss| && forall i | 0 <= i < |xss| :: |xss[i]| == |yss[i]|
    ensures |Flatten(xss)| == |Flatten(yss)|
  {
    if xss != [] {
      FlattenSameLength(xss[1..], yss[1..]);
    }
  }

  /** The loop of `chunkArray`: slices `[i, i + size)` pushed while `i < length`. */
  method ChunkArray<T>(a: seq<T>, size: nat) returns (r: seq<seq<T>>)
    requires size > 0
    ensures r == Chunks(a, size)
  {
    r := [];
    var i := 0;
    while i < |a|
      invariant 0 <= i && Pushed(a, size, i, r)
      decreases |a| - i
    {
      ChunkArrayStep(a, size, i, r);
      r := r + [a[i..Min(i + size, |a|)]];
      i := i + size;
    }
    ChunkArrayEnd(a, size, i, r);
  }

  /** `r` holds the chunks of `a` that lie before index `i`. */
  ghost predicate Pushed<T>(a: seq<T>, size: nat, i: nat, r: seq<seq<T>>)
    requires size > 0
  {
    r + Chunks(a[Min(i, |a|)..], size) == Chunks(a, size)
  }

  lemma ChunkArrayStep<T>(a: seq<T>, size: nat, i: nat, r: seq<seq<T>>)
    requires size > 0 && i < |a|
    requires Pushed(a, size, i, r)
    ensures Pushed(a, size, i + size, r + [a[i..Min(i + size, |a|)]])
  {
    ChunksStep(a, size, i);
    AppendAssoc(r, [a[i..Min(i + size, |a|)]], Chunks(a[Min(i + size, |a|)..], size));
  }

  lemma ChunkArrayEnd<T>(a: seq<T>, size: nat, i: nat, r: seq<seq<T>>)
    requires size > 0 && i >= |a|
    requires Pushed(a, size, i, r)
    ensures r == Chunks(a, size)
  {
    assert a[Min(i, |a|)..] == [];
    assert r + [] == r;
  }

  /** The chunks of the suffix at `i`: the slice `[i, i + size)`, then the chunks of
      what follows it. */
  lemma ChunksStep<T>(a: seq<T>, size: nat, i: nat)
    requires size > 0 && i < |a|
    ensures Chunks(a[i..], size) == [a[i..Min(i + size, |a|)]] + Chunks(a[Min(i + size, |a|)..], size)
  {
    var rest := a[i..];
    var j := Min(i + size, |a|);
    if |rest| > size {
      assert Chunks(rest, size) == [rest[..size]] + Chunks(rest[size..], size);
      assert rest[..size] == a[i..j];
      assert rest[size..] == a[j..];
    } else {
      assert Chunks(rest, size) == [rest];
      assert rest == a[i..j];
      assert a[j..] == [];
    }
  }

  lemma AppendAssoc<T>(a: seq<T>, b: seq<T>, c: seq<T>)
    ensures (a + b) + c == a + (b + c)
  {
  }
}
