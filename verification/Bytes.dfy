/** Bytes, fixed-width integers and sequence searching shared by the wire formats. */
module Bytes {

  datatype Option<+T> = None | Some(value: T)

  type byte = b: int | 0 <= b < 256

  const CR: byte := 13
  const LF: byte := 10
  const CRLF: seq<byte> := [CR, LF]
  const CRLFCRLF: seq<byte> := [CR, LF, CR, LF]

  function Pow256(k: nat): (r: nat)
    ensures r >= 1
  {
    if k == 0 then 1 else 256 * Pow256(k - 1)
  }

  // ---- big-endian integers (u16/u32/u64::to_be_bytes and from_be_bytes) ----

  /** The low `k` bytes of `n`, most significant first: a cast to a `k`-byte integer
      followed by to_be_bytes. */
  function ToBE(n: nat, k: nat): (s: seq<byte>)
    ensures |s| == k
  {
    if k == 0 then [] else ToBE(n / 256, k - 1) + [n % 256]
  }

  function FromBE(s: seq<byte>): (n: nat)
    ensures n < Pow256(|s|)
  {
    if s == [] then 0 else FromBE(s[..|s| - 1]) * 256 + s[|s| - 1]
  }

  lemma {:induction false} BigEndianRoundTrip(n: nat, k: nat)
    requires n < Pow256(k)
    ensures FromBE(ToBE(n, k)) == n
  {
    if k > 0 {
      BigEndianRoundTrip(n / 256, k - 1);
      var s := ToBE(n, k);
      assert s[..|s| - 1] == ToBE(n / 256, k - 1);
    }
  }

  // ---- little-endian integers ----

  function ToLE(n: nat, k: nat): (s: seq<byte>)
    ensures |s| == k
  {
    if k == 0 then [] else [n % 256] + ToLE(n / 256, k - 1)
  }

  function FromLE(s: seq<byte>): (n: nat)
    ensures n < Pow256(|s|)
  {
    if s == [] then 0 else s[0] + 256 * FromLE(s[1..])
  }

  lemma {:induction false} LittleEndianRoundTrip(n: nat, k: nat)
    requires n < Pow256(k)
    ensures FromLE(ToLE(n, k)) == n
  {
    if k > 0 {
      LittleEndianRoundTrip(n / 256, k - 1);
      assert ToLE(n, k)[1..] == ToLE(n / 256, k - 1);
    }
  }

  /** Byte `i`, the lowest first. */
  function ByteOf(n: nat, i: nat): (r: byte)
  {
    if i == 0 then n % 256 else ByteOf(n / 256, i - 1)
  }

  lemma {:induction false} LittleEndianByte(n: nat, k: nat, i: nat)
    requires i < k
    ensures ToLE(n, k)[i] == ByteOf(n, i)
  {
    if i > 0 {
      LittleEndianByte(n / 256, k - 1, i - 1);
    }
  }

  lemma {:induction false} BigEndianByte(n: nat, k: nat, i: nat)
    requires i < k
    ensures ToBE(n, k)[k - 1 - i] == ByteOf(n, i)
  {
    if i > 0 {
      BigEndianByte(n / 256, k - 1, i - 1);
    }
  }

  /** Dividing by 256 `i` times is dividing by 256 to the power of `i`. */
  lemma {:induction false} ByteOfIs(n: nat, i: nat)
    ensures ByteOf(n, i) == n / Pow256(i) % 256
  {
    if i > 0 {
      ByteOfIs(n / 256, i - 1);
      DivideTwice(n, Pow256(i - 1));
    }
  }

  lemma DivideTwice(n: nat, d: nat)
    requires d > 0
    ensures n / 256 / d == n / (256 * d)
  {
    var q, r := n / 256, n % 256;
    var q', r' := q / d, q % d;
    assert n == 256 * (d * q' + r') + r;
    assert n == (256 * d) * q' + (256 * r' + r) by { Spread(d, q', r'); }
    assert 0 <= 256 * r' + r < 256 * d;
    QuotientIs(n, 256 * d, q', 256 * r' + r);
  }

  lemma Spread(d: nat, q: nat, r: nat)
    ensures 256 * (d * q + r) == (256 * d) * q + 256 * r
  {
  }

  lemma QuotientIs(n: nat, d: nat, q: nat, r: nat)
    requires d > 0 && n == d * q + r && r < d
    ensures n / d == q
  {
    var q', r' := n / d, n % d;
    assert d * q' + r' == d * q + r;
    if q' < q {
      Times(d, q' + 1, q);
    } else if q' > q {
      Times(d, q + 1, q');
    }
  }

  lemma Times(d: nat, a: nat, b: nat)
    requires 0 < a <= b
    ensures d * (a - 1) + d <= d * b
  {
    assert d * a == d * (a - 1) + d;
    assert d * a + d * (b - a) == d * b;
  }

  lemma PowersOf256()
    ensures Pow256(2) == 0x1_0000
    ensures Pow256(4) == 0x1_0000_0000
    ensures Pow256(8) == 0x1_0000_0000_0000_0000
  {
    assert Pow256(1) == 256;
    assert Pow256(3) == 256 * Pow256(2);
    assert Pow256(5) == 256 * Pow256(4);
    assert Pow256(6) == 256 * Pow256(5);
    assert Pow256(7) == 256 * Pow256(6);
  }

  // ---- concatenation of a list of reads, frames or chunks ----

  function Flatten<T>(parts: seq<seq<T>>): (r: seq<T>)
  {
    if parts == [] then [] else parts[0] + Flatten(parts[1..])
  }

  lemma Assoc<T>(a: seq<T>, b: seq<T>, c: seq<T>)
    ensures a + (b + c) == (a + b) + c
  {
  }

  lemma {:induction false} FlattenAppend<T>(a: seq<seq<T>>, b: seq<seq<T>>)
    ensures Flatten(a + b) == Flatten(a) + Flatten(b)
  {
    if a == [] {
      assert a + b == b;
    } else {
      FlattenAppend(a[1..], b);
      Assoc(a[0], Flatten(a[1..]), Flatten(b));
      assert (a + b)[1..] == a[1..] + b && (a + b)[0] == a[0];
    }
  }

  lemma FlattenOne<T>(a: seq<T>)
    ensures Flatten([a]) == a
  {
    assert [a][1..] == [];
  }

  lemma FlattenSnoc<T>(a: seq<seq<T>>, x: seq<T>)
    ensures Flatten(a + [x]) == Flatten(a) + x
  {
    FlattenAppend(a, [x]);
    FlattenOne(x);
  }

  // ---- first occurrence of a pattern: windows(n).position(..) ----

  predicate OccursAt<T(==)>(s: seq<T>, pat: seq<T>, i: nat)
  {
    i + |pat| <= |s| && s[i..i + |pat|] == pat
  }

  function Find<T(==)>(s: seq<T>, pat: seq<T>): (r: Option<nat>)
    ensures r.Some? ==> OccursAt(s, pat, r.value)
    ensures r.Some? ==> forall j: nat :: j < r.value ==> !OccursAt(s, pat, j)
    ensures r.None? ==> forall j: nat :: !OccursAt(s, pat, j)
  {
    FindFrom(s, pat, 0)
  }

  function FindFrom<T(==)>(s: seq<T>, pat: seq<T>, from: nat): (r: Option<nat>)
    ensures r.Some? ==> r.value >= from && OccursAt(s, pat, r.value)
    ensures r.Some? ==> forall j: nat :: from <= j < r.value ==> !OccursAt(s, pat, j)
    ensures r.None? ==> forall j: nat :: from <= j ==> !OccursAt(s, pat, j)
    decreases |s| - from
  {
    if from + |pat| > |s| then None
    else if OccursAt(s, pat, from) then Some(from)
    else if from < |s| then FindFrom(s, pat, from + 1)
    else None
  }

  /** A first occurrence stays the first occurrence when bytes are appended. */
  lemma FindStable<T>(s: seq<T>, pat: seq<T>, more: seq<T>)
    requires Find(s, pat).Some?
    ensures Find(s + more, pat) == Find(s, pat)
  {
    var p := Find(s, pat).value;
    assert (s + more)[p..p + |pat|] == s[p..p + |pat|];
    assert OccursAt(s + more, pat, p);
    var q := Find(s + more, pat).value;
    if q < p {
      assert (s + more)[q..q + |pat|] == s[q..q + |pat|];
      assert OccursAt(s, pat, q);
    }
  }

  /** The position found is determined by being the least occurrence. */
  lemma FindIs<T>(s: seq<T>, pat: seq<T>, p: nat)
    requires OccursAt(s, pat, p)
    requires forall j: nat :: j < p ==> !OccursAt(s, pat, j)
    ensures Find(s, pat) == Some(p)
  {
  }

  lemma OccursCrlf(s: seq<byte>, j: nat)
    ensures OccursAt(s, CRLF, j) <==> j + 1 < |s| && s[j] == CR && s[j + 1] == LF
  {
    if j + 1 < |s| {
      assert s[j..j + 2] == [s[j], s[j + 1]];
    }
  }
}
