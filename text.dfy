/** The Python `str` operations the codec relies on: `split`, `join`,
    `replace`, `encode('ascii')`, `decode('utf-8')`, `int()` and the decimal
    rendering of `'{}'.format(n)`. Text is `seq<char>`. */
module Text {
  import opened Wire

  predicate IsAscii(s: string)
  {
    forall k :: 0 <= k < |s| ==> s[k] as int < 128
  }

  predicate AllAscii(bs: seq<Byte>)
  {
    forall k :: 0 <= k < |bs| ==> bs[k] < 128
  }

  /** The octets of an ASCII string, one per character. */
  function AsciiBytes(s: string): (r: seq<Byte>)
    requires IsAscii(s)
    ensures |r| == |s| && AllAscii(r)
    ensures forall k :: 0 <= k < |s| ==> r[k] == s[k] as int
  {
    if s == [] then [] else [s[0] as int] + AsciiBytes(s[1..])
  }

  /** The characters of ASCII octets, one per octet. */
  function AsciiText(bs: seq<Byte>): (r: string)
    requires AllAscii(bs)
    ensures |r| == |bs| && IsAscii(r)
    ensures forall k :: 0 <= k < |bs| ==> r[k] as int == bs[k]
  {
    if bs == [] then [] else [bs[0] as char] + AsciiText(bs[1..])
  }

  /** `s.encode('ascii')`: fails on the first character above 127. */
  function EncodeAscii(s: string): Result<seq<Byte>>
  {
    if IsAscii(s) then Ok(AsciiBytes(s)) else Err(UnicodeEncodeError)
  }

  /** `bs.decode('utf-8')`, restricted to ASCII: any octet above 127 is
      reported as a decode failure. */
  function DecodeUtf8(bs: seq<Byte>): Result<string>
  {
    if AllAscii(bs) then Ok(AsciiText(bs)) else Err(UnicodeDecodeError)
  }

  /** The octets of a string given character by character. */
  lemma AsciiWord(s: string, bs: seq<Byte>)
    requires |s| == |bs| && forall k :: 0 <= k < |s| ==> s[k] as int == bs[k] < 128
    ensures IsAscii(s) && AsciiBytes(s) == bs
  {
  }

  /** Decoding what was ASCII-encoded gives the string back, and the other way round. */
  lemma AsciiRoundTrip(s: string, bs: seq<Byte>)
    ensures IsAscii(s) ==> DecodeUtf8(AsciiBytes(s)) == Ok(s)
    ensures AllAscii(bs) ==> EncodeAscii(AsciiText(bs)) == Ok(bs)
  {
    if IsAscii(s) {
      assert AsciiText(AsciiBytes(s)) == s;
    }
    if AllAscii(bs) {
      assert AsciiBytes(AsciiText(bs)) == bs;
    }
  }

  /** `s.split(sep)`: the pieces between the separators, always at least one. */
  function Split(s: string, sep: char): (parts: seq<string>)
    ensures |parts| >= 1
    ensures forall k :: 0 <= k < |parts| ==> sep !in parts[k]
  {
    if s == [] then [[]]
    else
      var rest := Split(s[1..], sep);
      if s[0] == sep then [[]] + rest else [[s[0]] + rest[0]] + rest[1..]
  }

  /** `sep.join(parts)`. */
  function Join(parts: seq<string>, sep: char): string
  {
    if parts == [] then []
    else if |parts| == 1 then parts[0]
    else parts[0] + [sep] + Join(parts[1..], sep)
  }

  /** `s.replace(from, to)` for single characters. */
  function Replace(s: string, from: char, to: char): (r: string)
    ensures |r| == |s|
    ensures forall k :: 0 <= k < |s| ==> r[k] == if s[k] == from then to else s[k]
  {
    if s == [] then [] else [if s[0] == from then to else s[0]] + Replace(s[1..], from, to)
  }

  /** Joining the pieces of a split gives the original string. */
  lemma {:induction false} JoinSplit(s: string, sep: char)
    ensures Join(Split(s, sep), sep) == s
  {
    if s != [] {
      var rest := Split(s[1..], sep);
      JoinSplit(s[1..], sep);
      if s[0] != sep && |rest| > 1 {
        assert Join(rest, sep) == rest[0] + [sep] + Join(rest[1..], sep);
      }
    }
  }

  lemma {:induction false} SplitWithoutSep(s: string, sep: char)
    requires sep !in s
    ensures Split(s, sep) == [s]
  {
    if s != [] {
      SplitWithoutSep(s[1..], sep);
      assert [s[0]] + s[1..] == s;
    }
  }

  lemma {:induction false} SplitAfterSep(a: string, b: string, sep: char)
    requires sep !in a
    ensures Split(a + [sep] + b, sep) == [a] + Split(b, sep)
  {
    if a == [] {
      assert (a + [sep] + b)[1..] == b;
    } else {
      assert (a + [sep] + b)[1..] == a[1..] + [sep] + b;
      assert sep !in a[1..] && a[0] != sep;
      SplitAfterSep(a[1..], b, sep);
      assert [a[0]] + a[1..] == a;
    }
  }

  /** Splitting a join gives the pieces back when no piece holds the separator. */
  lemma {:induction false} SplitJoin(parts: seq<string>, sep: char)
    requires |parts| >= 1
    requires forall k :: 0 <= k < |parts| ==> sep !in parts[k]
    ensures Split(Join(parts, sep), sep) == parts
  {
    if |parts| == 1 {
      SplitWithoutSep(parts[0], sep);
    } else {
      SplitAfterSep(parts[0], Join(parts[1..], sep), sep);
      SplitJoin(parts[1..], sep);
    }
  }

  /** Joining with an empty last piece ends the join with the separator. */
  lemma {:induction false} JoinEmptyLast(parts: seq<string>, sep: char)
    requires parts != []
    ensures Join(parts + [[]], sep) == Join(parts, sep) + [sep]
  {
    var longer := parts + [[]];
    if |parts| == 1 {
      assert longer[1..] == [[]];
    } else {
      assert longer[1..] == parts[1..] + [[]];
      JoinEmptyLast(parts[1..], sep);
    }
  }

  /** Replacing a character that does not occur changes nothing. */
  lemma ReplaceAbsent(s: string, from: char, to: char)
    requires from !in s
    ensures Replace(s, from, to) == s
  {
  }

  predicate IsDigit(c: char) { '0' <= c <= '9' }

  predicate AllDigits(s: string)
  {
    forall k :: 0 <= k < |s| ==> IsDigit(s[k])
  }

  /** The value of a string of decimal digits. */
  function DigitsValue(s: string): nat
    requires AllDigits(s)
  {
    if s == [] then 0 else DigitsValue(s[..|s| - 1]) * 10 + (s[|s| - 1] as int - '0' as int)
  }

  /** `int(s)` for an optional sign followed by one or more decimal digits;
      anything else raises ValueError. */
  function ParseInt(s: string): Result<int>
  {
    if |s| >= 2 && (s[0] == '+' || s[0] == '-') && AllDigits(s[1..]) then
      Ok(if s[0] == '-' then -(DigitsValue(s[1..]) as int) else DigitsValue(s[1..]))
    else if |s| >= 1 && AllDigits(s) then
      Ok(DigitsValue(s))
    else
      Err(ValueError)
  }

  /** The decimal rendering `'{}'.format(n)` of a non-negative integer. */
  function Decimal(n: nat): (r: string)
    ensures |r| >= 1 && AllDigits(r)
  {
    var digit := ['0' + (n % 10) as char];
    if n < 10 then digit else Decimal(n / 10) + digit
  }

  /** `int()` reads a decimal rendering back to the same number. */
  lemma {:induction false} ParseDecimal(n: nat)
    ensures DigitsValue(Decimal(n)) == n
    ensures ParseInt(Decimal(n)) == Ok(n)
  {
    var d := Decimal(n);
    if n < 10 {
      assert d[..0] == [];
    } else {
      ParseDecimal(n / 10);
      assert d[..|d| - 1] == Decimal(n / 10);
    }
  }
}
