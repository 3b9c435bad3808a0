/** Octets, the Python exceptions the codec can raise, and the big-endian
    helpers (`int.from_bytes(.., 'big')`, `struct.pack('>H' / '>L')`, slicing)
    that every other module builds on. */
module Wire {

  /** One octet; byte strings are `seq<Byte>`. */
  type Byte = x: int | 0 <= x < 256

  /** The Python exception classes that the modelled code can raise. */
  datatype Error =
    | IndexError          // `s[-1]` on an empty str, `data[k]` past the end
    | ValueError          // unknown enum code, `int()` of a non-integer
    | OverflowError       // `int.to_bytes(1, 'big')` outside 0..255
    | StructError         // `struct.pack` of a value outside the field's range
    | TypeError           // `len(None)`, a non-RType passed to the dispatch
    | AttributeError      // attribute access on None or on an int
    | UnicodeEncodeError  // `str.encode('ascii')` of a non-ASCII character
    | UnicodeDecodeError  // `bytes.decode('utf-8')` that fails

  /** A value or the exception that interrupted the computation. */
  datatype Result<+T> = Ok(value: T) | Err(error: Error) {
    predicate IsFailure() { Err? }
    function PropagateFailure<U>(): Result<U> requires Err? { Err(error) }
    function Extract(): T requires Ok? { value }
  }

  /** A Python attribute that may hold `None`. */
  datatype Option<+T> = None | Some(value: T)

  /** `prefix + r` when r is a value; r's exception otherwise. */
  function After<T>(prefix: seq<T>, r: Result<seq<T>>): Result<seq<T>>
  {
    if r.Ok? then Ok(prefix + r.value) else r
  }

  lemma AfterNothing<T>(r: Result<seq<T>>)
    ensures After<T>([], r) == r
  {
    if r.Ok? {
      assert [] + r.value == r.value;
    }
  }

  lemma AfterAfter<T>(a: seq<T>, b: seq<T>, r: Result<seq<T>>)
    ensures After(a, After(b, r)) == After(a + b, r)
  {
    if r.Ok? {
      assert a + (b + r.value) == (a + b) + r.value;
    }
  }

  /** `s[i:j]` for non-negative bounds: Python clamps both ends to the sequence. */
  function Slice<T>(s: seq<T>, i: nat, j: nat): (r: seq<T>)
    ensures i < j <= |s| ==> r == s[i..j]
    ensures i < |s| < j ==> r == s[i..]
    ensures j <= i || |s| <= i ==> r == []
  {
    if |s| <= i || j <= i then [] else if j <= |s| then s[i..j] else s[i..]
  }

  /** Concatenation groups either way. */
  lemma Concat3<T>(a: seq<T>, b: seq<T>, c: seq<T>)
    ensures a + b + c == a + (b + c)
  {
  }

  /** `s[n:]` for a non-negative n: empty once n reaches the end. */
  function Drop<T>(s: seq<T>, n: nat): (r: seq<T>)
    ensures n <= |s| ==> r == s[n..]
    ensures |s| <= n ==> r == []
  {
    if n <= |s| then s[n..] else []
  }

  /** The pieces one after the other. */
  function Flatten<T>(ws: seq<seq<T>>): seq<T>
  {
    if ws == [] then [] else ws[0] + Flatten(ws[1..])
  }

  /** Piece k of a flattened sequence sits right after the pieces before it. */
  lemma {:induction false} FlattenPlaced<T>(ws: seq<seq<T>>, k: nat)
    requires k < |ws|
    ensures |Flatten(ws[..k + 1])| == |Flatten(ws[..k])| + |ws[k]| <= |Flatten(ws)|
    ensures Flatten(ws)[|Flatten(ws[..k])|..|Flatten(ws[..k + 1])|] == ws[k]
  {
    var tail := Flatten(ws[1..]);
    if k == 0 {
      assert ws[..1][1..] == [] && ws[..0] == [];
      assert Flatten(ws[..1]) == ws[0] + [];
      assert (ws[0] + tail)[0..|ws[0]|] == ws[0];
    } else {
      FlattenPlaced(ws[1..], k - 1);
      assert ws[..k][1..] == ws[1..][..k - 1] && ws[..k + 1][1..] == ws[1..][..k];
      assert ws[1..][k - 1] == ws[k];
      var a := |Flatten(ws[1..][..k - 1])|;
      var b := |Flatten(ws[1..][..k])|;
      assert (ws[0] + tail)[|ws[0]| + a..|ws[0]| + b] == tail[a..b];
    }
  }

  /** Dropping a prefix leaves what follows it. */
  lemma DropPrefix<T>(a: seq<T>, b: seq<T>)
    ensures Drop(a + b, |a|) == b
  {
    assert (a + b)[|a|..] == b;
  }

  /** Slicing past a prefix is slicing what follows it. */
  lemma SliceAfter<T>(w: seq<T>, rest: seq<T>, a: nat, b: nat)
    ensures Slice(w + rest, |w| + a, |w| + b) == Slice(rest, a, b)
  {
    var data := w + rest;
    if a < b && a < |rest| {
      if b <= |rest| {
        assert data[|w| + a..|w| + b] == rest[a..b];
      } else {
        assert data[|w| + a..] == rest[a..];
      }
    }
  }

  lemma SubSlice<T>(s: seq<T>, a: nat, b: nat, c: nat, d: nat)
    requires a <= b <= |s| && c <= d <= b - a
    ensures s[a..b][c..d] == s[a + c..a + d]
  {
    forall k | 0 <= k < d - c
      ensures s[a..b][c..d][k] == s[a + c..a + d][k]
    {
      assert s[a..b][c..d][k] == s[a..b][c + k] == s[a + c + k];
    }
  }

  /** Where the parts of `head + tail` sit when it occupies `data[i..end]`. */
  lemma Segment<T>(data: seq<T>, i: nat, end: nat, head: seq<T>, tail: seq<T>)
    requires |head| >= 1 && end == i + |head| + |tail| <= |data|
    requires data[i..end] == head + tail
    ensures data[i] == head[0]
    ensures data[i + 1..i + |head|] == head[1..]
    ensures data[i + |head|..end] == tail
  {
    assert data[i..end][0] == data[i];
    SubSlice(data, i, end, 1, |head|);
    assert (head + tail)[1..|head|] == head[1..];
    SubSlice(data, i, end, |head|, end - i);
    assert (head + tail)[|head|..end - i] == tail;
  }

  /** `int.from_bytes(bs, 'big')`; the empty string reads as 0. */
  function BigEndian(bs: seq<Byte>): nat
  {
    if bs == [] then 0 else BigEndian(bs[..|bs| - 1]) * 256 + bs[|bs| - 1]
  }

  predicate IsU16(n: int) { 0 <= n < 0x1_0000 }
  predicate IsU32(n: int) { 0 <= n < 0x1_0000_0000 }

  /** `struct.pack('>H', n)` for an n in range. */
  function U16(n: int): (r: seq<Byte>)
    requires IsU16(n)
    ensures |r| == 2 && BigEndian(r) == n
  {
    var r := [n / 0x100, n % 0x100];
    BigEndianTwo(r);
    r
  }

  /** `struct.pack('>L', n)` for an n in range. */
  function U32(n: int): (r: seq<Byte>)
    requires IsU32(n)
    ensures |r| == 4 && BigEndian(r) == n
  {
    var q1 := n / 0x100;
    var q2 := q1 / 0x100;
    var r := [q2 / 0x100, q2 % 0x100, q1 % 0x100, n % 0x100];
    BigEndianFour(r);
    r
  }

  lemma BigEndianTwo(bs: seq<Byte>)
    requires |bs| == 2
    ensures BigEndian(bs) == bs[0] as int * 0x100 + bs[1]
  {
    var head := bs[..1];
    assert head[..0] == [];
    assert BigEndian(head) == bs[0];
  }

  lemma BigEndianFour(bs: seq<Byte>)
    requires |bs| == 4
    ensures BigEndian(bs) == bs[0] as int * 0x100_0000 + bs[1] as int * 0x1_0000 + bs[2] as int * 0x100 + bs[3]
  {
    assert bs[..3][..2] == bs[..2];
    BigEndianTwo(bs[..2]);
  }

  /** Reading back two packed octets gives the packed value. */
  lemma U16OfBigEndian(bs: seq<Byte>)
    requires |bs| == 2
    ensures IsU16(BigEndian(bs)) && U16(BigEndian(bs)) == bs
  {
    BigEndianTwo(bs);
  }

  /** A one-octet slice reads as that octet, a missing one as 0. */
  lemma OctetAt(bs: seq<Byte>, k: nat)
    ensures BigEndian(Slice(bs, k, k + 1)) == if k < |bs| then bs[k] else 0
  {
    if k < |bs| {
      assert Slice(bs, k, k + 1) == [bs[k]];
      assert [bs[k]][..0] == [];
    }
  }

  /** 2^k; Python's `x << k` is `x * Pow2(k)` for every integer x. */
  function Pow2(k: nat): (r: nat)
    ensures r >= 1
  {
    if k == 0 then 1 else 2 * Pow2(k - 1)
  }

  /** Python's `a | b` on unbounded two's-complement integers: the low bit is
      the OR of the low bits, the rest is the OR of the floor halves; 0 and -1
      (no bits set, every bit set) are the fixed points. */
  function Or(a: int, b: int): int
    decreases (if a < 0 then -a else a) + (if b < 0 then -b else b)
  {
    if a == 0 then b
    else if a == -1 then -1
    else if b == 0 then a
    else if b == -1 then -1
    else 2 * Or(a / 2, b / 2) + (if a % 2 == 1 || b % 2 == 1 then 1 else 0)
  }

  /** OR of non-negative values is non-negative and below 2^k exactly when both are. */
  lemma {:induction false} OrBound(a: int, b: int, k: nat)
    requires a >= 0 && b >= 0
    ensures Or(a, b) >= 0
    ensures Or(a, b) < Pow2(k) <==> a < Pow2(k) && b < Pow2(k)
    decreases a + b
  {
    if a != 0 && b != 0 {
      if k == 0 {
        OrBound(a / 2, b / 2, 0);
      } else {
        OrBound(a / 2, b / 2, k - 1);
      }
    }
  }

  /** OR with a negative operand is negative: every high bit is set. */
  lemma {:induction false} OrNegative(a: int, b: int)
    requires a < 0 || b < 0
    ensures Or(a, b) < 0
    decreases (if a < 0 then -a else a) + (if b < 0 then -b else b)
  {
    if a != 0 && a != -1 && b != 0 && b != -1 {
      OrNegative(a / 2, b / 2);
    }
  }

  /** A multiple of 2^k ORed with a value below 2^k is their sum: no bit is shared. */
  lemma {:induction false} OrDisjoint(m: int, b: int, k: nat)
    requires m >= 0 && 0 <= b < Pow2(k)
    ensures Or(m * Pow2(k), b) == m * Pow2(k) + b
  {
    if m != 0 && b != 0 {
      var high := m * Pow2(k - 1);
      assert m * Pow2(k) == 2 * high;
      OrDisjoint(m, b / 2, k - 1);
    }
  }

  /** Doubling both operands doubles their OR. */
  lemma OrDouble(a: int, b: int)
    requires a >= 0 && b >= 0
    ensures Or(2 * a, 2 * b) == 2 * Or(a, b)
  {
    if a != 0 && b != 0 {
      assert (2 * a) / 2 == a && (2 * a) % 2 == 0;
      assert (2 * b) / 2 == b && (2 * b) % 2 == 0;
    }
  }

  lemma ShiftOnce(x: int, k: nat)
    requires k > 0
    ensures x * Pow2(k) == 2 * (x * Pow2(k - 1))
  {
  }

  /** Shifting both operands by k shifts their OR by k. */
  lemma {:induction false} OrScale(a: int, b: int, k: nat)
    requires a >= 0 && b >= 0
    ensures Or(a * Pow2(k), b * Pow2(k)) == Or(a, b) * Pow2(k)
  {
    if k > 0 {
      var a', b' := a * Pow2(k - 1), b * Pow2(k - 1);
      calc {
        Or(a * Pow2(k), b * Pow2(k));
        == { ShiftOnce(a, k); ShiftOnce(b, k); }
        Or(2 * a', 2 * b');
        == { OrDouble(a', b'); }
        2 * Or(a', b');
        == { OrScale(a, b, k - 1); }
        2 * (Or(a, b) * Pow2(k - 1));
        == { ShiftOnce(Or(a, b), k); }
        Or(a, b) * Pow2(k);
      }
    }
  }

  /** Python's `a & b` on unbounded two's-complement integers, bit by bit
      like Or. */
  function And(a: int, b: int): int
    decreases (if a < 0 then -a else a) + (if b < 0 then -b else b)
  {
    if a == 0 || b == 0 then 0
    else if a == -1 then b
    else if b == -1 then a
    else 2 * And(a / 2, b / 2) + (if a % 2 == 1 && b % 2 == 1 then 1 else 0)
  }

  lemma DivModUnique(x: int, d: int, t: int, u: int)
    requires d > 0 && 0 <= u < d && x == d * t + u
    ensures x / d == t && x % d == u
  {
    var q, r := x / d, x % d;
    assert d * (q - t) == u - r;
    if q > t {
      MulAtLeast(d, q - t);
    } else if q < t {
      MulAtLeast(d, t - q);
    }
  }

  lemma MulAtLeast(d: int, k: int)
    requires d > 0 && k >= 1
    ensures d * k >= d && d * k >= k
  {
  }

  /** `(b // 2) % m` and the low bit of b make up `b % 2m`. */
  lemma HalfMod(b: int, m: int)
    requires b >= 0 && m >= 1
    ensures b % (2 * m) == 2 * (b / 2 % m) + b % 2
  {
    var q, r := b / 2, b % 2;
    var t, s := q / m, q % m;
    assert q == m * t + s;
    assert b == (2 * m) * t + (2 * s + r);
    DivModUnique(b, 2 * m, t, 2 * s + r);
  }

  /** `(b // 2) // 2^(k-1)` is `b // 2^k`. */
  lemma HalfDiv(b: int, k: nat)
    requires b >= 0 && k > 0
    ensures b / 2 / Pow2(k - 1) == b / Pow2(k)
  {
    var p := Pow2(k - 1);
    var q, r := b / 2, b % 2;
    var t, s := q / p, q % p;
    assert q == p * t + s;
    assert b == Pow2(k) * t + (2 * s + r);
    DivModUnique(b, Pow2(k), t, 2 * s + r);
  }

  /** One step of And on positive operands. */
  lemma AndStep(b: int, mask: int)
    requires b > 0 && mask > 0
    ensures And(b, mask) == 2 * And(b / 2, mask / 2) + (if b % 2 == 1 && mask % 2 == 1 then 1 else 0)
  {
  }

  /** ANDing with n low one-bits keeps the remainder modulo 2^n. */
  lemma {:induction false} AndLow(b: int, n: nat)
    requires b >= 0
    ensures And(b, Pow2(n) - 1) == b % Pow2(n)
  {
    if n == 0 {
      assert Pow2(n) - 1 == 0;
    } else if b == 0 {
      assert b % Pow2(n) == 0;
    } else {
      var m := Pow2(n - 1);
      assert (2 * m - 1) / 2 == m - 1 && (2 * m - 1) % 2 == 1;
      calc {
        And(b, Pow2(n) - 1);
        == { AndStep(b, 2 * m - 1); }
        2 * And(b / 2, m - 1) + b % 2;
        == { AndLow(b / 2, n - 1); }
        2 * (b / 2 % m) + b % 2;
        == { HalfMod(b, m); }
        b % Pow2(n);
      }
    }
  }

  /** ANDing with an even mask clears the low bit. */
  lemma AndEven(b: int, m: int)
    requires b > 0 && m > 0
    ensures And(b, 2 * m) == 2 * And(b / 2, m)
  {
    assert (2 * m) / 2 == m && (2 * m) % 2 == 0;
  }

  /** ANDing with a mask shifted by k is shifting down, masking and shifting back. */
  lemma {:induction false} AndShifted(b: int, mask: int, k: nat)
    requires b >= 0 && mask >= 0
    ensures And(b, mask * Pow2(k)) == And(b / Pow2(k), mask) * Pow2(k)
  {
    if k == 0 {
      assert mask * Pow2(k) == mask && b / Pow2(k) == b;
    } else if b == 0 || mask == 0 {
      assert b / Pow2(k) == 0 || mask * Pow2(k) == 0;
    } else {
      var m := mask * Pow2(k - 1);
      var low := And(b / Pow2(k), mask);
      MulAtLeast(mask, Pow2(k - 1));
      calc {
        And(b, mask * Pow2(k));
        == { ShiftOnce(mask, k); }
        And(b, 2 * m);
        == { AndEven(b, m); }
        2 * And(b / 2, m);
        == { AndShifted(b / 2, mask, k - 1); }
        2 * (And(b / 2 / Pow2(k - 1), mask) * Pow2(k - 1));
        == { HalfDiv(b, k); }
        2 * (low * Pow2(k - 1));
        == { ShiftOnce(low, k); }
        low * Pow2(k);
      }
    }
  }

  lemma MulDiv(x: int, p: int)
    requires p > 0
    ensures (x * p) / p == x
  {
    assert x * p == p * x + 0;
    DivModUnique(x * p, p, x, 0);
  }

  /** `(b & mask) >> k`, for the mask of n one-bits shifted by k (p = 2^k,
      q = 2^n), is the n-bit field of b starting at bit k. */
  lemma AndField(b: int, n: nat, k: nat, mask: int, p: int, q: int)
    requires b >= 0 && p == Pow2(k) && q == Pow2(n) && mask == (q - 1) * p
    ensures And(b, mask) / p == b / p % q
  {
    AndShifted(b, q - 1, k);
    var field := And(b / p, q - 1);
    assert And(b, mask) == field * p;
    MulDiv(field, p);
    DivNonNegative(b, p);
    AndLow(b / p, n);
  }

  lemma DivNonNegative(b: int, p: int)
    requires b >= 0 && p > 0
    ensures b / p >= 0
  {
  }
}
