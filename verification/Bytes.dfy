/** Bytes, byte strings and the alignment arithmetic of fota_base.h. */
module Bytes {

  type byte = x: int | 0 <= x < 256
  type Bytes = seq<byte>

  datatype Option<+T> = None | Some(value: T)

  function Min(a: nat, b: nat): nat {
    if a < b then a else b
  }

  /** FOTA_ALIGN_UP. For zero the macro wraps around; with a power of two as
      `size`, the only kind in use, the result is zero again. */
  function AlignUp(v: nat, size: nat): nat
    requires size > 0
  {
    if v == 0 then 0 else ((v - 1) / size + 1) * size
  }

  /** FOTA_ALIGN_DOWN. */
  function AlignDown(v: nat, size: nat): nat
    requires size > 0
  {
    v / size * size
  }

  function Fill(b: byte, n: nat): (r: Bytes)
    ensures |r| == n && forall i :: 0 <= i < n ==> r[i] == b
  {
    seq(n, i => b)
  }

  /** `mem` with the bytes from `addr` on replaced by `data`. */
  function Splice<T>(mem: seq<T>, addr: nat, data: seq<T>): (r: seq<T>)
    requires addr + |data| <= |mem|
    ensures |r| == |mem|
  {
    mem[..addr] + data + mem[addr + |data|..]
  }

  lemma SpliceNothing<T>(mem: seq<T>, at: nat)
    requires at <= |mem|
    ensures Splice(mem, at, []) == mem
  {}

  lemma SpliceAt<T>(mem: seq<T>, at: nat, data: seq<T>, i: nat)
    requires at + |data| <= |mem| && i < |mem|
    ensures Splice(mem, at, data)[i] == if at <= i < at + |data| then data[i - at] else mem[i]
  {}

  lemma SpliceSnoc<T>(mem: seq<T>, at: nat, data: seq<T>, i: nat)
    requires at + |data| <= |mem| && i < |data|
    ensures Splice(mem, at, data[..i])[at + i := data[i]] == Splice(mem, at, data[..i + 1])
  {
    assert data[..i + 1] == data[..i] + [data[i]];
  }

  /** memcpy into a buffer */
  method CopyInto<T>(a: array<T>, at: nat, data: seq<T>)
    requires at + |data| <= a.Length
    modifies a
    ensures a[..] == Splice(old(a[..]), at, data)
  {
    hide Splice;
    SpliceNothing(a[..], at);
    assert data[..0] == [];
    for i := 0 to |data|
      invariant a[..] == Splice(old(a[..]), at, data[..i])
    {
      ghost var before := a[..];
      SpliceSnoc(old(a[..]), at, data, i);
      a[at + i] := data[i];
      assert a[..] == before[at + i := data[i]];
    }
    assert data[..|data|] == data;
  }

  function Concat(parts: seq<Bytes>): Bytes {
    if parts == [] then [] else Concat(parts[..|parts| - 1]) + parts[|parts| - 1]
  }

  lemma SliceOfSlice(s: Bytes, a: nat, b: nat, i: nat, j: nat)
    requires a <= b <= |s| && i <= j <= b - a
    ensures s[a..b][i..j] == s[a + i..a + j]
  {
    var l, r := s[a..b][i..j], s[a + i..a + j];
    assert forall k :: 0 <= k < j - i ==> l[k] == s[a..b][i + k] == s[a + i + k] == r[k];
  }

  lemma SliceJoin(s: Bytes, a: nat, b: nat, c: nat)
    requires a <= b <= c <= |s|
    ensures s[a..b] + s[b..c] == s[a..c]
  {}

  /** Writing two adjacent pieces is writing their concatenation. */
  lemma SpliceTwice(mem: Bytes, addr: nat, a: Bytes, b: Bytes)
    requires addr + |a| + |b| <= |mem|
    ensures Splice(Splice(mem, addr, a), addr + |a|, b) == Splice(mem, addr, a + b)
  {}

  lemma ConcatSnoc(parts: seq<Bytes>, p: Bytes)
    ensures Concat(parts + [p]) == Concat(parts) + p
  {
    assert (parts + [p])[..|parts|] == parts;
  }

  lemma {:induction false} ConcatAppend(a: seq<Bytes>, b: seq<Bytes>)
    ensures Concat(a + b) == Concat(a) + Concat(b)
  {
    if b == [] {
      assert a + b == a;
    } else {
      var b' := b[..|b| - 1];
      ConcatAppend(a, b');
      assert (a + b)[..|a + b| - 1] == a + b';
    }
  }

  /** Where the `j`-th part lies in the concatenation. */
  lemma ConcatAt(parts: seq<Bytes>, j: nat)
    requires j < |parts|
    ensures var o := |Concat(parts[..j])|;
            && o + |parts[j]| <= |Concat(parts)|
            && Concat(parts)[o..o + |parts[j]|] == parts[j]
            && |Concat(parts[..j + 1])| == o + |parts[j]|
  {
    ConcatAppend(parts[..j + 1], parts[j + 1..]);
    assert parts == parts[..j + 1] + parts[j + 1..];
    ConcatSnoc(parts[..j], parts[j]);
    assert parts[..j + 1] == parts[..j] + [parts[j]];
  }

  // ---- Divisibility -------------------------------------------------------

  /** `n` is a whole number of units of `d` bytes. */
  predicate Multiple(n: nat, d: nat)
    requires d > 0
  {
    n == 0 || (n >= d && Multiple(n - d, d))
  }

  lemma {:induction false} MultipleAdd(a: nat, b: nat, d: nat)
    requires d > 0 && Multiple(a, d)
    ensures Multiple(a + b, d) <==> Multiple(b, d)
  {
    if a > 0 {
      MultipleAdd(a - d, b, d);
    }
  }

  /** Distinct multiples are at least one unit apart. */
  lemma {:induction false} MultipleGap(a: nat, b: nat, d: nat)
    requires d > 0 && Multiple(a, d) && Multiple(b, d) && a < b
    ensures a + d <= b
  {
    if a > 0 {
      MultipleGap(a - d, b - d, d);
    }
  }

  lemma {:induction false} MultipleTrans(n: nat, mid: nat, d: nat)
    requires mid > 0 && d > 0 && Multiple(n, mid) && Multiple(mid, d)
    ensures Multiple(n, d)
  {
    if n > 0 {
      MultipleTrans(n - mid, mid, d);
      MultipleAdd(mid, n - mid, d);
    }
  }

  lemma {:induction false} MultipleIsMod(n: nat, d: nat)
    requires d > 0
    ensures Multiple(n, d) <==> n % d == 0
  {
    if n >= d {
      MultipleIsMod(n - d, d);
      assert n % d == (n - d) % d by {
        var q, r := (n - d) / d, (n - d) % d;
        assert n - d == q * d + r by { assert n - d == d * q + r; }
        assert n == (q + 1) * d + r;
        DivModUnique(n, d, q + 1, r);
      }
    } else if n > 0 {
      DivModUnique(n, d, 0, n);
    }
  }

  /** The length of `k` blocks. */
  function Span(k: nat, eff: nat): (n: nat)
    ensures n == k * eff
  {
    if k == 0 then 0 else Span(k - 1, eff) + eff
  }

  lemma {:induction false} MultipleIsSpan(n: nat, d: nat) returns (k: nat)
    requires d > 0 && Multiple(n, d)
    ensures Span(k, d) == n
  {
    if n == 0 {
      k := 0;
    } else {
      k := MultipleIsSpan(n - d, d);
      k := k + 1;
    }
  }

  lemma {:induction false} SpanMono(a: nat, b: nat, d: nat)
    requires a <= b
    ensures Span(a, d) <= Span(b, d)
  {
    if a < b {
      SpanMono(a, b - 1, d);
    }
  }

  // ---- Division facts ---------------------------------------------------

  /** Quotient and remainder are determined by the defining equation. */
  lemma DivModUnique(v: int, d: nat, q: int, r: nat)
    requires d > 0 && r < d && v == q * d + r
    ensures v / d == q && v % d == r
  {
    var q', r' := v / d, v % d;
    assert v == q' * d + r' by { assert v == d * (v / d) + v % d; }
    if q' < q {
      MulLe(q' + 1, q, d);
    } else if q < q' {
      MulLe(q + 1, q', d);
    }
  }

  lemma MulLe(a: int, b: int, d: nat)
    requires a <= b
    ensures a * d <= b * d
  {
    assert b * d - a * d == (b - a) * d;
    if d > 0 && b > a {
      assert (b - a) * d >= 0;
    }
  }

  lemma MultipleMod(q: nat, d: nat)
    requires d > 0
    ensures (q * d) % d == 0 && (q * d) / d == q
  {
    DivModUnique(q * d, d, q, 0);
  }

  /** The least multiple of `size` that is not below `v`. */
  lemma AlignUpIsLeast(v: nat, size: nat)
    requires size > 0
    ensures AlignUp(v, size) % size == 0
    ensures v <= AlignUp(v, size) < v + size
    ensures v % size == 0 ==> AlignUp(v, size) == v
    ensures AlignUp(v, size) / size * size == AlignUp(v, size)
  {
    if v == 0 {
      MultipleMod(0, size);
    } else {
      var q := (v - 1) / size;
      var r := (v - 1) % size;
      assert v - 1 == q * size + r by { assert v - 1 == size * q + r; }
      assert (q + 1) * size == q * size + size;
      MultipleMod(q + 1, size);
      if v % size == 0 {
        var w := v / size;
        assert v == w * size by { assert v == size * w + v % size; }
        AlignedSqueeze(w, q + 1, size);
      }
    }
  }

  /** Two multiples less than one unit apart are equal. */
  lemma AlignedSqueeze(a: nat, b: nat, size: nat)
    requires size > 0 && a * size <= b * size < a * size + size
    ensures a == b
  {
    if a < b {
      MulLe(a + 1, b, size);
    } else if b < a {
      MulLe(b + 1, a, size);
    }
  }

  lemma AlignUpUnique(v: nat, size: nat, m: nat)
    requires size > 0 && m % size == 0 && v <= m < v + size
    ensures AlignUp(v, size) == m
  {
    AlignUpIsLeast(v, size);
    var a, b := AlignUp(v, size) / size, m / size;
    assert m == b * size by { assert m == size * b + m % size; }
    assert AlignUp(v, size) == a * size;
    if AlignUp(v, size) <= m {
      AlignedSqueeze(a, b, size);
    } else {
      AlignedSqueeze(b, a, size);
    }
  }

  lemma AlignUpMono(a: nat, b: nat, size: nat)
    requires size > 0 && a <= b
    ensures AlignUp(a, size) <= AlignUp(b, size)
  {
    hide AlignUp, Multiple;
    AlignUpIsLeast(a, size);
    AlignUpIsLeast(b, size);
    MultipleIsMod(AlignUp(a, size), size);
    MultipleIsMod(AlignUp(b, size), size);
    if AlignUp(b, size) < AlignUp(a, size) {
      MultipleGap(AlignUp(b, size), AlignUp(a, size), size);
    }
  }
}
