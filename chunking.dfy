/** Splitting a sequence into consecutive chunks of a fixed size, as the slice
    method `chunks(n)` does: every chunk holds `n` elements except possibly the
    last, which holds the remainder; no chunk is empty. */
module Chunking {

  function MinNat(a: nat, b: nat): nat {
    if a <= b then a else b
  }

  /** `s` cut into consecutive chunks of `r` elements (the last may be shorter). */
  function Chunks<T>(s: seq<T>, r: nat): (cs: seq<seq<T>>)
    requires r > 0
    ensures forall j :: 0 <= j < |cs| ==> 0 < |cs[j]| <= r
    decreases |s|
  {
    if s == [] then []
    else if |s| <= r then [s]
    else [s[..r]] + Chunks(s[r..], r)
  }

  /** The concatenation of a sequence of sequences. */
  function Flatten<T>(cs: seq<seq<T>>): seq<T> {
    if cs == [] then [] else cs[0] + Flatten(cs[1..])
  }

  lemma MulMono(a: nat, b: nat, r: nat)
    requires a <= b
    ensures a * r <= b * r
  {
    var k := b - a;
    assert b * r == a * r + k * r;
  }

  lemma MulStep(a: nat, r: nat)
    ensures (a + 1) * r == a * r + r
  {
  }

  lemma MulLess(a: nat, b: nat, r: nat)
    ensures a < b ==> a * r + r <= b * r
  {
    if a < b {
      MulMono(a + 1, b, r);
      MulStep(a, r);
    }
  }

  /** `x / r` is the only `q` with `q * r <= x < (q + 1) * r`. */
  lemma DivIsUnique(x: nat, r: nat, q: nat)
    requires r > 0
    requires q * r <= x < q * r + r
    ensures x / r == q
  {
    var d := x / r;
    assert d * r + x % r == x;
    MulLess(d, q, r);
    MulLess(q, d, r);
  }

  /** A non-empty sequence of at most `r` elements is one chunk; a longer one is
      one full chunk followed by the chunks of the rest. */
  lemma CeilDivStep(n: nat, r: nat)
    requires r > 0
    ensures n == 0 ==> (n + r - 1) / r == 0
    ensures 0 < n <= r ==> (n + r - 1) / r == 1
    ensures n > r ==> (n + r - 1) / r == (n - r + r - 1) / r + 1
  {
    if n == 0 {
      DivIsUnique(r - 1, r, 0);
    } else if n <= r {
      DivIsUnique(n + r - 1, r, 1);
    } else {
      var q := (n - r + r - 1) / r;
      var x := n - r + r - 1;
      assert q * r + x % r == x;
      assert (q + 1) * r == q * r + r;
      DivIsUnique(n + r - 1, r, q + 1);
    }
  }

  /** There are ceil(|s| / r) chunks. */
  lemma {:induction false} ChunksCount<T>(s: seq<T>, r: nat)
    requires r > 0
    ensures |Chunks(s, r)| == (|s| + r - 1) / r
    decreases |s|
  {
    CeilDivStep(|s|, r);
    if |s| > r {
      ChunksCount(s[r..], r);
    }
  }

  /** `ChunksCount` for a sequence whose length is known as `n`. */
  lemma ChunksCountOf<T>(s: seq<T>, r: nat, n: nat)
    requires r > 0
    requires |s| == n
    ensures |Chunks(s, r)| == (n + r - 1) / r
  {
    ChunksCount(s, r);
  }

  /** Concatenating the chunks gives back the original sequence. */
  lemma {:induction false} ChunksFlatten<T>(s: seq<T>, r: nat)
    requires r > 0
    ensures Flatten(Chunks(s, r)) == s
    decreases |s|
  {
    if |s| > r {
      ChunksFlatten(s[r..], r);
      assert Chunks(s, r)[1..] == Chunks(s[r..], r);
      assert s == s[..r] + s[r..];
    }
  }

  /** `a * b` as repeated addition. The proofs about chunk positions unfold it
      one step at a time, which keeps them in linear arithmetic. */
  function Times(a: nat, b: nat): nat {
    if a == 0 then 0 else Times(a - 1, b) + b
  }

  lemma {:induction false} TimesIsMul(a: nat, b: nat)
    ensures Times(a, b) == a * b
  {
    if a > 0 {
      TimesIsMul(a - 1, b);
      MulStep(a - 1, b);
    }
  }

  /** `Times` grows by at least `r` per step. */
  lemma {:induction false} TimesLess(i: nat, j: nat, r: nat)
    requires i < j
    ensures Times(i, r) + r <= Times(j, r)
    decreases j
  {
    if j > i + 1 {
      TimesLess(i, j - 1, r);
    }
  }

  lemma {:induction false} ChunkAtTimes<T>(s: seq<T>, r: nat, j: nat)
    requires r > 0
    requires j < |Chunks(s, r)|
    ensures Times(j, r) < |s|
    ensures |Chunks(s, r)[j]| == MinNat(r, |s| - Times(j, r))
    ensures forall i :: 0 <= i < |Chunks(s, r)[j]| ==> Chunks(s, r)[j][i] == s[Times(j, r) + i]
    decreases |s|
  {
    if j == 0 {
      if |s| <= r {
        assert Chunks(s, r)[0] == s;
      } else {
        assert Chunks(s, r)[0] == s[..r];
      }
    } else {
      assert |s| > r;
      var rest := s[r..];
      ChunkAtTimes(rest, r, j - 1);
      var c := Chunks(s, r)[j];
      assert c == Chunks(rest, r)[j - 1];
      assert Times(j, r) == Times(j - 1, r) + r;
      forall i | 0 <= i < |c| ensures c[i] == s[Times(j, r) + i] {
        assert rest[Times(j - 1, r) + i] == s[r + Times(j - 1, r) + i];
      }
    }
  }

  /** Chunk `j` holds the elements of `s` from position `j * r` on, `r` of them
      or as many as remain; in particular its first element is `s[j * r]`. */
  lemma ChunkAt<T>(s: seq<T>, r: nat, j: nat)
    requires r > 0
    requires j < |Chunks(s, r)|
    ensures j * r < |s|
    ensures |Chunks(s, r)[j]| == MinNat(r, |s| - j * r)
    ensures forall i :: 0 <= i < |Chunks(s, r)[j]| ==> Chunks(s, r)[j][i] == s[j * r + i]
  {
    ChunkAtTimes(s, r, j);
    TimesIsMul(j, r);
  }

  /** Every chunk but the last holds exactly `r` elements. */
  lemma ChunkSizes<T>(s: seq<T>, r: nat, j: nat)
    requires r > 0
    requires j + 1 < |Chunks(s, r)|
    ensures |Chunks(s, r)[j]| == r
  {
    ChunkAt(s, r, j);
    ChunkAt(s, r, j + 1);
    MulStep(j, r);
  }
}
