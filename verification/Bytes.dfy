/** Byte strings in the store's lexicographic order: fixed-width big-endian numbers,
    decimal numerals, and the exclusive upper bound of a key prefix. */
module Bytes {
  import opened Orders

  type Byte = x: int | 0 <= x < 256

  type Bytes = seq<Byte>

  const U32_LIMIT: nat := 0x1_0000_0000

  const U64_LIMIT: int := 0x1_0000_0000_0000_0000

  type U64 = x: int | 0 <= x < U64_LIMIT

  /** Lexicographic order; a proper prefix comes first. */
  predicate Less(a: Bytes, b: Bytes) {
    b != [] && (a == [] || a[0] < b[0] || (a[0] == b[0] && Less(a[1..], b[1..])))
  }

  lemma {:induction false} LessTotal(a: Bytes, b: Bytes)
    ensures a == b || Less(a, b) || Less(b, a)
    ensures !(Less(a, b) && (a == b || Less(b, a)))
  {
    if a != [] && b != [] {
      LessTotal(a[1..], b[1..]);
      assert a == [a[0]] + a[1..] && b == [b[0]] + b[1..];
    }
  }

  lemma {:induction false} LessTransitive(a: Bytes, b: Bytes, c: Bytes)
    requires Less(a, b) && Less(b, c)
    ensures Less(a, c)
  {
    if a != [] && a[0] == b[0] == c[0] {
      LessTransitive(a[1..], b[1..], c[1..]);
    }
  }

  lemma LessStrictTotal()
    ensures StrictTotal(Less)
  {
    forall a: Bytes, b: Bytes ensures !Less(a, a) && (a == b || Less(a, b) || Less(b, a)) {
      LessTotal(a, a);
      LessTotal(a, b);
    }
    forall a: Bytes, b: Bytes, c: Bytes | Less(a, b) && Less(b, c) ensures Less(a, c) {
      LessTransitive(a, b, c);
    }
  }

  /** A set of keys in the order the store iterates them. */
  function InOrder(s: set<Bytes>): (r: seq<Bytes>)
    ensures Ascending(r, Less) && Elements(r) == s && |r| == |s|
  {
    LessStrictTotal();
    Sorted(s, Less)
  }

  /** Comparing two strings cut at the same place compares heads, then tails. */
  lemma {:induction false} LessSplit(a: Bytes, a': Bytes, b: Bytes, b': Bytes)
    requires |a| == |b|
    ensures Less(a + a', b + b') <==> Less(a, b) || (a == b && Less(a', b'))
  {
    if a == [] {
      assert a + a' == a' && b + b' == b';
    } else {
      LessSplit(a[1..], a', b[1..], b');
      assert (a + a')[1..] == a[1..] + a' && (b + b')[1..] == b[1..] + b';
      assert a == [a[0]] + a[1..] && b == [b[0]] + b[1..];
    }
  }

  lemma LessThanLonger(x: Bytes, head: Bytes, tail: Bytes)
    requires |x| == |head|
    ensures Less(x, head + tail) <==> Less(x, head) || (x == head && tail != [])
  {
    LessSplit(x, [], head, tail);
    assert x + [] == x;
  }

  // ----- numbers -----------------------------------------------------------

  /** The number a byte string denotes, most significant byte first. */
  function Val(s: Bytes): nat {
    if s == [] then 0 else Val(s[..|s| - 1]) * 256 + s[|s| - 1]
  }

  function BigEndian(n: nat, width: nat): (s: Bytes)
    ensures |s| == width
  {
    if width == 0 then [] else BigEndian(n / 256, width - 1) + [n % 256]
  }

  /** On strings of one length, byte order is numeric order. */
  lemma {:induction false} LessIsNumeric(a: Bytes, b: Bytes)
    requires |a| == |b|
    ensures Less(a, b) <==> Val(a) < Val(b)
    ensures a == b <==> Val(a) == Val(b)
  {
    if a == [] {
    } else {
      var n := |a| - 1;
      LessIsNumeric(a[..n], b[..n]);
      LessSplit(a[..n], [a[n]], b[..n], [b[n]]);
      assert a == a[..n] + [a[n]] && b == b[..n] + [b[n]];
      assert Less([a[n]], [b[n]]) <==> a[n] < b[n];
    }
  }

  function Pow256(w: nat): nat {
    if w == 0 then 1 else 256 * Pow256(w - 1)
  }

  lemma Widths()
    ensures Pow256(4) == U32_LIMIT && Pow256(8) == U64_LIMIT
  {
    assert Pow256(2) == 65536;
    assert Pow256(4) == U32_LIMIT;
    assert Pow256(6) == 0x1_0000_0000_0000;
  }

  lemma {:induction false} BigEndianVal(n: nat, width: nat)
    requires n < Pow256(width)
    ensures Val(BigEndian(n, width)) == n
  {
    if width == 0 {
    } else {
      BigEndianVal(n / 256, width - 1);
      var s := BigEndian(n, width);
      assert s[..|s| - 1] == BigEndian(n / 256, width - 1);
    }
  }

  function Be64(n: U64): (s: Bytes)
    ensures |s| == 8
  {
    BigEndian(n, 8)
  }

  /** `u64::from_be_bytes` undoes `to_be_bytes`, and byte order is the order of the numbers. */
  lemma Be64Order(a: U64, b: U64)
    ensures Val(Be64(a)) == a
    ensures Less(Be64(a), Be64(b)) <==> a < b
    ensures Be64(a) == Be64(b) <==> a == b
  {
    Widths();
    BigEndianVal(a, 8);
    BigEndianVal(b, 8);
    LessIsNumeric(Be64(a), Be64(b));
  }

  // ----- prefixes ----------------------------------------------------------

  /** Adding one to the last byte, with carry. A string of only 255s wraps to zeros. */
  function Incremented(p: Bytes): (r: Bytes)
    ensures |r| == |p|
  {
    if p == [] then []
    else
      var n := |p| - 1;
      if p[n] < 255 then p[..n] + [p[n] + 1] else Incremented(p[..n]) + [0]
  }

  /** A carry that has reached byte `i` ends there or goes on. */
  lemma CarryAt(p: Bytes, i: nat, r: Bytes)
    requires i < |p| == |r| && r[..i + 1] == p[..i + 1] && Incremented(p) == Incremented(p[..i + 1]) + r[i + 1..]
    ensures r[i] == p[i] && r[..i] == p[..i]
    ensures p[i] < 255 ==> Incremented(p) == r[i := r[i] + 1]
    ensures p[i] == 255 ==> Incremented(p) == Incremented(p[..i]) + r[i := 0][i..] && r[i := 0][..i] == p[..i]
  {
    SameHeads(p, r, i);
    CarryOver(p[..i], p[i], r[i + 1..]);
    if p[i] < 255 {
      Updated(r, i, r[i] + 1);
    } else {
      Updated(r, i, 0);
    }
  }

  lemma SameHeads(p: Bytes, r: Bytes, i: nat)
    requires i < |p| == |r| && r[..i + 1] == p[..i + 1]
    ensures r[i] == p[i] && r[..i] == p[..i] && p[..i + 1] == p[..i] + [p[i]]
  {
    assert r[..i + 1][i] == r[i] && p[..i + 1][i] == p[i];
    assert r[..i + 1][..i] == r[..i] && p[..i + 1][..i] == p[..i];
  }

  lemma CarryOver(head: Bytes, x: Byte, tail: Bytes)
    ensures Incremented(head + [x]) + tail
         == if x < 255 then head + [x + 1] + tail else Incremented(head) + ([0] + tail)
  {
    IncrementedLast(head, x);
    assert (Incremented(head) + [0]) + tail == Incremented(head) + ([0] + tail);
  }

  lemma IncrementedLast(head: Bytes, x: Byte)
    ensures Incremented(head + [x]) == if x < 255 then head + [x + 1] else Incremented(head) + [0]
  {
    assert (head + [x])[..|head|] == head;
  }

  lemma Updated(r: Bytes, i: nat, x: Byte)
    requires i < |r|
    ensures r[i := x] == r[..i] + [x] + r[i + 1..] && r[i := x][..i] == r[..i] && r[i := x][i..] == [x] + r[i + 1..]
  {
  }

  method IncrementPrefix(prefix: Bytes) returns (result: Bytes)
    ensures result == Incremented(prefix)
  {
    result := prefix;
    var i := |prefix|;
    assert prefix[..i] == prefix;
    while i > 0
      invariant 0 <= i <= |prefix| == |result|
      invariant result[..i] == prefix[..i]
      invariant Incremented(prefix) == Incremented(prefix[..i]) + result[i..]
    {
      i := i - 1;
      CarryAt(prefix, i, result);
      if result[i] < 255 {
        result := result[i := result[i] + 1];
        return;
      }
      result := result[i := 0];
    }
    assert prefix[..0] == [];
  }

  lemma {:induction false} IncrementedVal(p: Bytes)
    requires !OnlyFull(p)
    ensures Val(Incremented(p)) == Val(p) + 1
  {
    var n := |p| - 1;
    var r := Incremented(p);
    if p[n] < 255 {
      assert r[..n] == p[..n];
    } else {
      var i :| 0 <= i < |p| && p[i] != 255;
      assert p[..n][i] < 255;
      IncrementedVal(p[..n]);
      assert r[..n] == Incremented(p[..n]);
    }
  }

  predicate OnlyFull(p: Bytes) {
    forall i :: 0 <= i < |p| ==> p[i] == 255
  }

  /** The increment that grows: a string of only 255s becomes a one followed by zeros. */
  function Extended(p: Bytes): Bytes {
    if OnlyFull(p) then [1] + Incremented(p) else Incremented(p)
  }

  /** Differs from `IncrementPrefix` on strings of only 255s alone, where it adds a byte. */
  method IncrementVec(vec: Bytes) returns (result: Bytes)
    ensures result == Extended(vec)
  {
    result := vec;
    var carry, i := true, |vec|;
    assert vec[..i] == vec;
    while i > 0 && carry
      invariant 0 <= i <= |vec| == |result|
      invariant carry ==> result[..i] == vec[..i] && OnlyFull(vec[i..])
      invariant carry ==> Incremented(vec) == Incremented(vec[..i]) + result[i..]
      invariant !carry ==> result == Incremented(vec) && !OnlyFull(vec)
    {
      i := i - 1;
      CarryAt(vec, i, result);
      assert vec[i..] == [vec[i]] + vec[i + 1..];
      if result[i] == 255 {
        result := result[i := 0];
      } else {
        result := result[i := result[i] + 1];
        carry := false;
      }
    }
    if carry {
      assert vec[i..] == vec && vec[..i] == [] && result[i..] == result;
      result := [1] + result;
    }
  }

  lemma {:induction false} FullVal(p: Bytes)
    requires OnlyFull(p)
    ensures Val(p) + 1 == Pow256(|p|) == Val([1] + Incremented(p))
  {
    if p == [] {
      assert [1][..0] == [];
    } else {
      var n := |p| - 1;
      FullVal(p[..n]);
      assert ([1] + Incremented(p))[..n + 1] == [1] + Incremented(p[..n]);
    }
  }

  /** The growing increment is the next number for every string. */
  lemma ExtendedVal(p: Bytes)
    ensures Val(Extended(p)) == Val(p) + 1
  {
    if OnlyFull(p) {
      FullVal(p);
    } else {
      IncrementedVal(p);
    }
  }

  /** A carry enters the first `m` bytes exactly when it passes all the others. */
  lemma {:induction false} IncrementedSplit(p: Bytes, m: nat)
    requires m < |p|
    ensures Incremented(p)[..m] == if OnlyFull(p[m..]) then Incremented(p[..m]) else p[..m]
    decreases |p|
  {
    var n := |p| - 1;
    assert p[n] == p[m..][n - m];
    if p[n] < 255 {
    } else if m == n {
    } else {
      IncrementedSplit(p[..n], m);
      assert p[..n][..m] == p[..m];
      assert p[m..] == p[..n][m..] + [p[n]];
      assert OnlyFull(p[m..]) <==> OnlyFull(p[..n][m..]);
    }
  }

  /** Among keys at least as long as the prefix, the range holds exactly those that extend it. */
  lemma LongKeyInRange(p: Bytes, k: Bytes)
    requires !OnlyFull(p) && |k| >= |p|
    ensures !Less(k, p) && Less(k, Incremented(p)) <==> p <= k
  {
    var n := |p|;
    var head, tail := k[..n], k[n..];
    assert k == head + tail && p + [] == p && Incremented(p) + [] == Incremented(p);
    LessSplit(head, tail, p, []);
    LessSplit(head, tail, Incremented(p), []);
    IncrementedVal(p);
    LessIsNumeric(head, p);
    LessIsNumeric(head, Incremented(p));
  }

  lemma ShortKeyInRange(p: Bytes, k: Bytes)
    requires !OnlyFull(p) && |k| < |p|
    ensures !Less(k, p) && Less(k, Incremented(p)) <==> OnlyFull(p[|k|..]) && k == Incremented(p[..|k|])
  {
    var m, r := |k|, Incremented(p);
    var head, next := p[..m], r[..m];
    LessThanLonger(k, head, p[m..]);
    LessThanLonger(k, next, r[m..]);
    assert p == head + p[m..] && r == next + r[m..];
    LessIsNumeric(k, head);
    LessIsNumeric(k, next);
    IncrementedSplit(p, m);
    if OnlyFull(p[m..]) {
      assert !OnlyFull(head) by {
        var i :| 0 <= i < |p| && p[i] != 255;
        assert i < m;
        assert head[i] == p[i];
      }
      IncrementedVal(head);
      LessIsNumeric(next, Incremented(head));
    }
  }

  /** The half-open range from a prefix to its increment holds the keys that extend the prefix, and
      besides them only one kind of key: shorter than the prefix, where all it lacks are 255s, and
      the increment of what it has. */
  lemma PrefixRange(p: Bytes, k: Bytes)
    requires !OnlyFull(p)
    ensures !Less(k, p) && Less(k, Incremented(p))
       <==> p <= k || (|k| < |p| && OnlyFull(p[|k|..]) && k == Incremented(p[..|k|]))
  {
    if |k| >= |p| {
      LongKeyInRange(p, k);
    } else {
      ShortKeyInRange(p, k);
    }
  }

  // ----- decimal numerals --------------------------------------------------

  /** `to_string` of an unsigned number, as ASCII bytes. */
  function Decimal(n: nat): (s: Bytes)
    ensures s != []
  {
    if n < 10 then [48 + n] else Decimal(n / 10) + [48 + n % 10]
  }

  /** A number with its last `k` decimal digits dropped. */
  function DropDigits(n: nat, k: nat): nat
    decreases k
  {
    if k == 0 then n else DropDigits(n / 10, k - 1)
  }

  lemma {:induction false} DecimalLength(a: nat, b: nat)
    requires a <= b
    ensures |Decimal(a)| <= |Decimal(b)|
  {
    if a >= 10 { DecimalLength(a / 10, b / 10); }
  }

  lemma {:induction false} DecimalSameLength(a: nat, b: nat)
    requires |Decimal(a)| == |Decimal(b)|
    ensures Less(Decimal(a), Decimal(b)) <==> a < b
    ensures Decimal(a) == Decimal(b) <==> a == b
  {
    var x: Bytes, y: Bytes := [48 + a % 10], [48 + b % 10];
    assert Less(x, y) <==> a % 10 < b % 10;
    if a >= 10 {
      DecimalSameLength(a / 10, b / 10);
      LessSplit(Decimal(a / 10), x, Decimal(b / 10), y);
      assert Decimal(a)[..|Decimal(a)| - 1] == Decimal(a / 10);
      assert Decimal(b)[..|Decimal(b)| - 1] == Decimal(b / 10);
    } else {
      assert |Decimal(a)| == 1;
    }
  }

  lemma DecimalInjective(a: nat, b: nat)
    ensures Decimal(a) == Decimal(b) <==> a == b
  {
    if |Decimal(a)| == |Decimal(b)| {
      DecimalSameLength(a, b);
    }
  }

  function Pow10(k: nat): nat {
    if k == 0 then 1 else 10 * Pow10(k - 1)
  }

  lemma {:induction false} DecimalWidth(n: nat, k: nat)
    requires 1 <= k && n < Pow10(k)
    ensures |Decimal(n)| <= k
  {
    if n < 10 {
    } else {
      assert Pow10(k) == 10 * Pow10(k - 1);
      assert k != 1;
      DecimalWidth(n / 10, k - 1);
    }
  }

  lemma {:induction false} DecimalPrefix(n: nat, k: nat)
    requires k < |Decimal(n)|
    ensures Decimal(n)[..|Decimal(n)| - k] == Decimal(DropDigits(n, k))
    decreases k
  {
    if k == 0 {
    } else {
      var s := Decimal(n);
      assert s[..|s| - 1] == Decimal(n / 10);
      DecimalPrefix(n / 10, k - 1);
      assert s[..|s| - 1][..|s| - k] == s[..|s| - k];
    }
  }

  /** The head of a numeral, as long as a smaller number's, and the digits after it. */
  lemma DecimalHead(a: nat, b: nat) returns (c: nat, tail: Bytes)
    requires a < b
    ensures |Decimal(a)| <= |Decimal(b)| && c == DropDigits(b, |Decimal(b)| - |Decimal(a)|)
    ensures |Decimal(c)| == |Decimal(a)| && Decimal(b) == Decimal(c) + tail
    ensures tail == [] ==> c == b
  {
    DecimalLength(a, b);
    var k := |Decimal(b)| - |Decimal(a)|;
    c := DropDigits(b, k);
    DecimalPrefix(b, k);
    tail := Decimal(b)[|Decimal(a)|..];
  }

  /** Numerals compare as text like the numbers they write exactly when the smaller number
      is at most the larger one cut to as many digits. */
  lemma DecimalOrder(a: nat, b: nat)
    requires a < b
    ensures |Decimal(a)| <= |Decimal(b)|
    ensures Less(Decimal(a), Decimal(b)) <==> a <= DropDigits(b, |Decimal(b)| - |Decimal(a)|)
  {
    var c, tail := DecimalHead(a, b);
    DecimalSameLength(a, c);
    LessThanLonger(Decimal(a), Decimal(c), tail);
  }
}
