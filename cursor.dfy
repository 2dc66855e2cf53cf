/**
 * The byte cursor of the `.blend` reader, as pure functions of the file's
 * bytes and a position. Every read yields the value read and the position
 * after it, or `Truncated` when the bytes it needs are not in the file.
 * Multi-byte integers are read in one fixed byte order (little-endian).
 */
module Cursor {

  /** One byte of the file. */
  newtype byte = b: int | 0 <= b < 256

  type Bytes = seq<byte>

  datatype Option<T> = None | Some(value: T)

  /** What a read at a position yields: the value and the position right after it. */
  datatype Parsed<T> = Parsed(value: T, next: nat) | Truncated

  /** Prepends one item to a list read after it; a truncation stays a truncation. */
  function Cons<T>(x: T, rest: Parsed<seq<T>>): (r: Parsed<seq<T>>)
    ensures r.Parsed? <==> rest.Parsed?
    ensures r.Parsed? ==> r.value == [x] + rest.value && r.next == rest.next
  {
    match rest
    case Truncated => Truncated
    case Parsed(xs, q) => Parsed([x] + xs, q)
  }

  /** Taking one more element of a sequence appends that element. */
  lemma TakeNext<T>(all: seq<T>, n: nat)
    requires n < |all|
    ensures all[..n + 1] == all[..n] + [all[n]]
  {
  }

  /** Taking every element of a sequence gives the sequence. */
  lemma TakeAll<T>(all: seq<T>, n: nat)
    requires n == |all|
    ensures all[..n] == all
  {
  }

  /** A parse of the suffix `all[j..]` that starts with `x` is `x == all[j]` followed by a parse of `all[j + 1..]`. */
  lemma ConsAt<T>(x: T, rest: Parsed<seq<T>>, all: seq<T>, j: nat, end: nat)
    requires j < |all| && Cons(x, rest) == Parsed(all[j..], end)
    ensures x == all[j] && rest == Parsed(all[j + 1..], end)
  {
    assert all[j..] == [all[j]] + all[j + 1..];
    assert [x] + rest.value == [all[j]] + all[j + 1..];
    assert rest.value == ([x] + rest.value)[1..];
  }

  // ---------------------------------------------------------------- integers

  /** 256 to the power `n`: one more than the largest value `n` bytes hold. */
  function Pow256(n: nat): (r: nat)
    ensures r > 0
  {
    if n == 0 then 1 else 256 * Pow256(n - 1)
  }

  /** The unsigned value of `bs`, least significant byte first. */
  function LittleEndian(bs: Bytes): (r: nat)
    ensures r < Pow256(|bs|)
  {
    if bs == [] then 0 else bs[0] as nat + 256 * LittleEndian(bs[1..])
  }

  /** The `width` bytes that store `v` least significant byte first. */
  function ToLittleEndian(v: nat, width: nat): (bs: Bytes)
    ensures |bs| == width
  {
    if width == 0 then [] else [(v % 256) as byte] + ToLittleEndian(v / 256, width - 1)
  }

  /** Reading back what was stored gives the stored value ... */
  lemma {:induction false} DecodeEncode(v: nat, width: nat)
    requires v < Pow256(width)
    ensures LittleEndian(ToLittleEndian(v, width)) == v
  {
    if width > 0 {
      DecodeEncode(v / 256, width - 1);
      var bs := ToLittleEndian(v, width);
      assert bs[1..] == ToLittleEndian(v / 256, width - 1);
    }
  }

  /** ... and storing what was read gives the bytes that were read. */
  lemma {:induction false} EncodeDecode(bs: Bytes)
    ensures ToLittleEndian(LittleEndian(bs), |bs|) == bs
  {
    if bs != [] {
      EncodeDecode(bs[1..]);
      var v := LittleEndian(bs);
      assert v % 256 == bs[0] as nat;
      assert v / 256 == LittleEndian(bs[1..]);
    }
  }

  // ---------------------------------------------------------------- alignment

  /** Where `align` moves a position: the next multiple of 4, or nowhere when already on one. */
  function AlignUp(p: nat): (r: nat)
    ensures r % 4 == 0 && p <= r <= p + 3
    ensures p % 4 == 0 ==> r == p
    ensures forall m: nat :: p <= m && m % 4 == 0 ==> r <= m
  {
    var trim := p % 4;
    if trim != 0 then p + 4 - trim else p
  }

  // ---------------------------------------------------------------- strings

  /**
   * The block code with every NUL byte taken out, the rest kept in order
   * (the cleaning loop of `readHeader`).
   */
  function StripNul(s: Bytes): (r: Bytes)
    ensures forall i :: 0 <= i < |r| ==> r[i] != 0
    ensures multiset(r) == multiset(s)[0 as byte := 0]
    ensures (forall i :: 0 <= i < |s| ==> s[i] != 0) ==> r == s
    ensures |s| == 1 ==> r == (if s[0] != 0 then s else [])
  {
    if s == [] then []
    else
      var init := s[..|s| - 1];
      assert s == init + [s[|s| - 1]];
      StripNul(init) + (if s[|s| - 1] != 0 then [s[|s| - 1]] else [])
  }

  /** Stripping one more byte at the end appends it unless it is NUL. */
  lemma StripNulPush(s: Bytes, x: byte)
    ensures StripNul(s + [x]) == StripNul(s) + (if x != 0 then [x] else [])
  {
    assert (s + [x])[..|s|] == s;
  }

  /** Stripping works byte by byte, so the kept bytes stay in their order. */
  lemma {:induction false} StripNulAppend(a: Bytes, b: Bytes)
    ensures StripNul(a + b) == StripNul(a) + StripNul(b)
    decreases |b|
  {
    if b != [] {
      var init, x := b[..|b| - 1], b[|b| - 1];
      var kept := if x != 0 then [x] else [];
      assert b == init + [x];
      assert a + b == (a + init) + [x];
      calc {
        StripNul(a + b);
        { StripNulPush(a + init, x); }
        StripNul(a + init) + kept;
        { StripNulAppend(a, init); }
        (StripNul(a) + StripNul(init)) + kept;
        StripNul(a) + (StripNul(init) + kept);
        { StripNulPush(init, x); }
        StripNul(a) + StripNul(b);
      }
    } else {
      assert a + b == a;
    }
  }

  /** A code whose NULs all come after its first `k` bytes strips to those `k` bytes. */
  lemma {:induction false} StripNulTrailing(s: Bytes, k: nat)
    requires k <= |s|
    requires forall i :: 0 <= i < k ==> s[i] != 0
    requires forall i :: k <= i < |s| ==> s[i] == 0
    ensures StripNul(s) == s[..k]
    decreases |s|
  {
    if |s| > k {
      var init := s[..|s| - 1];
      assert s == init + [s[|s| - 1]];
      StripNulTrailing(init, k);
      assert init[..k] == s[..k];
    } else {
      assert s[..k] == s;
    }
  }

  /** The first NUL byte at or after `p`, if there is one. */
  function NulFrom(data: Bytes, p: nat): (r: Option<nat>)
    ensures r.Some? ==> p <= r.value < |data| && data[r.value] == 0
    ensures r.Some? ==> forall k :: p <= k < r.value ==> data[k] != 0
    ensures r.None? ==> forall k :: p <= k < |data| ==> data[k] != 0
    decreases |data| - p
  {
    if p >= |data| then None
    else if data[p] == 0 then Some(p)
    else NulFrom(data, p + 1)
  }

  // ---------------------------------------------------------------- reads

  /** `read<T>()` for an unsigned integer type that is `width` bytes wide. */
  function UIntAt(data: Bytes, p: nat, width: nat): (r: Parsed<nat>)
    ensures r.Parsed? <==> p + width <= |data|
    ensures r.Parsed? ==> r.next == p + width && r.value < Pow256(width)
  {
    if p + width <= |data| then Parsed(LittleEndian(data[p..p + width]), p + width) else Truncated
  }

  /** The bytes from `p` up to the next NUL, which is consumed and not part of the value. */
  function TerminatedAt(data: Bytes, p: nat, trim: Bytes -> Bytes): (r: Parsed<Bytes>)
    ensures r.Parsed? <==> NulFrom(data, p).Some?
    ensures r.Parsed? ==> p < r.next <= |data| && data[r.next - 1] == 0
    ensures r.Parsed? ==> NulFrom(data, p) == Some(r.next - 1) && r.value == trim(data[p..r.next - 1])
  {
    match NulFrom(data, p)
    case None => Truncated
    case Some(k) => Parsed(trim(data[p..k]), k + 1)
  }

  /**
   * `readString(length)`: with length 0, the NUL-terminated string at `p`;
   * otherwise exactly `length` bytes. Either way the result goes through
   * `trim`, the program's string helper, which is not part of this
   * model and is given as a parameter.
   */
  function StringAt(data: Bytes, p: nat, length: nat, trim: Bytes -> Bytes): (r: Parsed<Bytes>)
    ensures length > 0 ==> (r.Parsed? <==> p + length <= |data|)
    ensures length > 0 && r.Parsed? ==> r.next == p + length
  {
    if length == 0 then TerminatedAt(data, p, trim)
    else if p + length <= |data| then Parsed(trim(data[p..p + length]), p + length)
    else Truncated
  }

  /** `n` NUL-terminated strings one after the other. */
  function CStringsAt(data: Bytes, p: nat, n: nat, trim: Bytes -> Bytes): (r: Parsed<seq<Bytes>>)
    ensures r.Parsed? ==> |r.value| == n && p + n <= r.next
    ensures r.Parsed? && n > 0 ==> r.next <= |data|
    decreases n
  {
    if n == 0 then Parsed([], p)
    else
      match TerminatedAt(data, p, trim)
      case Truncated => Truncated
      case Parsed(s, q) => Cons(s, CStringsAt(data, q, n - 1, trim))
  }

  /** `n` unsigned integers of `width` bytes each, one after the other. */
  function UIntsAt(data: Bytes, p: nat, n: nat, width: nat): (r: Parsed<seq<nat>>)
    ensures n > 0 ==> (r.Parsed? <==> p + n * width <= |data|)
    ensures r.Parsed? ==> |r.value| == n && r.next == p + n * width
    decreases n
  {
    if n == 0 then Parsed([], p)
    else
      match UIntAt(data, p, width)
      case Truncated => Truncated
      case Parsed(v, q) => Cons(v, UIntsAt(data, q, n - 1, width))
  }

  /** Every integer read fits in `width` bytes. */
  lemma {:induction false} UIntsBounded(data: Bytes, p: nat, n: nat, width: nat)
    requires UIntsAt(data, p, n, width).Parsed?
    ensures forall i :: 0 <= i < n ==> UIntsAt(data, p, n, width).value[i] < Pow256(width)
    decreases n
  {
    if n > 0 {
      UIntsBounded(data, p + width, n - 1, width);
    }
  }

  /** One step of `CStringsAt`: the first string, then the rest. */
  lemma CStringsStep(data: Bytes, p: nat, n: nat, trim: Bytes -> Bytes)
    requires n > 0 && CStringsAt(data, p, n, trim).Parsed?
    ensures TerminatedAt(data, p, trim).Parsed?
    ensures CStringsAt(data, p, n, trim) == Cons(TerminatedAt(data, p, trim).value, CStringsAt(data, TerminatedAt(data, p, trim).next, n - 1, trim))
  {
  }

  /** One step of `UIntsAt`: the first integer, then the rest. */
  lemma UIntsStep(data: Bytes, p: nat, n: nat, width: nat)
    requires n > 0 && UIntsAt(data, p, n, width).Parsed?
    ensures UIntAt(data, p, width).Parsed?
    ensures UIntsAt(data, p, n, width) == Cons(UIntAt(data, p, width).value, UIntsAt(data, p + width, n - 1, width))
  {
  }
}
