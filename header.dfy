/** The 12-octet message header of app/dns/header.py: reading it from the
    front of a message (`Header.from_bytes`), the two canned headers
    (`Header.empty()` and the dataclass defaults), and packing it back
    (`Header.serialize`). Field widths are never masked on the way out, so
    only headers whose single-bit fields are 0 or 1 and whose `z` is below 8
    come back unchanged. */
module DnsHeader {
  import opened Wire
  import opened Types

  /** The dataclass fields; `questions` is not part of the wire form. */
  datatype Header = Header(
    id: int,
    qr: MessageType,
    opcode: OpCode,
    aa: int,
    tc: int,
    rd: int,
    ra: int,
    z: int,
    rcode: ResponseCode,
    qdcount: int,
    ancount: int,
    nscount: int,
    arcount: int)

  /** `Header(id=..)`: every other field takes its declared default. */
  function WithId(id: int): Header
  {
    Header(id, Query, QUERY, 0, 0, 0, 0, 0, NO_ERROR, 0, 0, 0, 0)
  }

  /** `Header.empty()`: the canned response header with id 1234. */
  function Empty(): Header
  {
    Header(1234, Response, QUERY, 0, 0, 0, 0, 0, NO_ERROR, 0, 0, 0, 0)
  }

  /** `(b & mask) >> shift` on one octet, with Python's integer `&`;
      `x >> k` is floor division by 2^k. */
  function Masked(b: Byte, mask: int, shift: nat): int
  {
    And(b, mask) / Pow2(shift)
  }

  /** The bit fields of the two flag octets, as quotients and remainders. */
  lemma MaskedHigh(b: Byte)
    ensures Masked(b, 0x80, 7) == b / 128
  {
    AndField(b, 1, 7, 0x80, 128, 2);
  }

  lemma MaskedOpCode(b: Byte)
    ensures Masked(b, 0x78, 3) == b / 8 % 16
  {
    AndField(b, 4, 3, 0x78, 8, 16);
  }

  lemma MaskedBit2(b: Byte)
    ensures Masked(b, 0x04, 2) == b / 4 % 2
  {
    AndField(b, 1, 2, 0x04, 4, 2);
  }

  lemma MaskedBit1(b: Byte)
    ensures Masked(b, 0x02, 1) == b / 2 % 2
  {
    AndField(b, 1, 1, 0x02, 2, 2);
  }

  lemma MaskedBit0(b: Byte)
    ensures Masked(b, 0x01, 0) == b % 2
  {
    AndField(b, 1, 0, 0x01, 1, 2);
  }

  lemma MaskedZ(b: Byte)
    ensures Masked(b, 0x70, 4) == b / 16 % 8
  {
    AndField(b, 3, 4, 0x70, 16, 8);
  }

  lemma MaskedRCode(b: Byte)
    ensures Masked(b, 0x0f, 0) == b % 16
  {
    AndField(b, 4, 0, 0x0f, 1, 16);
  }

  /** `Header.from_bytes(data)`. Octets 2 and 3 must exist (IndexError);
      the id and the four counts are read from slices, which Python clamps,
      so a buffer shorter than 12 octets reads its missing octets as absent.
      The enum lookups raise ValueError in the order qr, opcode, rcode. */
  function FromBytes(data: seq<Byte>): Result<Header>
  {
    if |data| < 4 then Err(IndexError)
    else
      match MessageTypeOf(Masked(data[2], 0x80, 7))
      case Err(e) => Err(e)
      case Ok(qr) =>
        match OpCodeOf(Masked(data[2], 0x78, 3))
        case Err(e) => Err(e)
        case Ok(opcode) =>
          match ResponseCodeOf(Masked(data[3], 0x0f, 0))
          case Err(e) => Err(e)
          case Ok(rcode) =>
            Ok(Header(
              BigEndian(Slice(data, 0, 2)),
              qr,
              opcode,
              Masked(data[2], 0x04, 2),
              Masked(data[2], 0x02, 1),
              Masked(data[2], 0x01, 0),
              Masked(data[3], 0x80, 7),
              Masked(data[3], 0x70, 4),
              rcode,
              BigEndian(Slice(data, 4, 6)),
              BigEndian(Slice(data, 6, 8)),
              BigEndian(Slice(data, 8, 10)),
              BigEndian(Slice(data, 10, 12))))
  }

  /** The flags word: each field shifted to its place (`x << k` is `x * 2^k`)
      and the results ORed together, as unbounded Python integers. */
  function Flags(h: Header): int
  {
    Or(Or(Or(Or(Or(Or(Or(
      h.qr.Value() * 0x8000,
      h.opcode.Value() * 0x800),
      h.aa * 0x400),
      h.tc * 0x200),
      h.rd * 0x100),
      h.ra * 0x80),
      h.z * 0x10),
      h.rcode.Value())
  }

  /** `header.serialize()`: `struct.pack('>HHHHHH', ..)` raises struct.error
      for any of the six words outside 0..65535. */
  function Serialize(h: Header): Result<seq<Byte>>
  {
    var flags := Flags(h);
    if IsU16(h.id) && IsU16(flags) && IsU16(h.qdcount) && IsU16(h.ancount)
       && IsU16(h.nscount) && IsU16(h.arcount)
    then Ok(U16(h.id) + U16(flags) + U16(h.qdcount) + U16(h.ancount) + U16(h.nscount) + U16(h.arcount))
    else Err(StructError)
  }

  /** The flag fields Python shifts without masking fit the flags word:
      each shifted value must stay below 2^16 and be non-negative. */
  predicate FlagsFit(h: Header)
  {
    0 <= h.aa < 64 && 0 <= h.tc < 128 && 0 <= h.rd < 256 && 0 <= h.ra < 512 && 0 <= h.z < 4096
  }

  /** Every field within its width on the wire: then nothing overlaps. */
  predicate InWidth(h: Header)
  {
    IsU16(h.id) && 0 <= h.aa < 2 && 0 <= h.tc < 2 && 0 <= h.rd < 2 && 0 <= h.ra < 2 && 0 <= h.z < 8
    && IsU16(h.qdcount) && IsU16(h.ancount) && IsU16(h.nscount) && IsU16(h.arcount)
  }

  /** The third and fourth header octets of an in-width header. */
  function FlagsHigh(h: Header): int
  {
    h.qr.Value() * 128 + h.opcode.Value() * 8 + h.aa * 4 + h.tc * 2 + h.rd
  }

  function FlagsLow(h: Header): int
  {
    h.ra * 128 + h.z * 16 + h.rcode.Value()
  }

  lemma Pow2Values()
    ensures Pow2(0) == 1 && Pow2(1) == 2 && Pow2(3) == 8 && Pow2(4) == 16
    ensures Pow2(7) == 0x80 && Pow2(8) == 0x100 && Pow2(9) == 0x200 && Pow2(10) == 0x400
    ensures Pow2(11) == 0x800 && Pow2(15) == 0x8000 && Pow2(16) == 0x1_0000
  {
  }

  /** ORing a field of width d (with p = 2^d) in below an accumulated word,
      both shifted by k (q = 2^k), appends its bits. */
  lemma OrAppend(x: int, y: int, d: nat, k: nat, p: int, q: int)
    requires p == Pow2(d) && q == Pow2(k)
    requires x >= 0 && 0 <= y < p
    ensures Or(x * (p * q), y * q) == (x * p + y) * q
  {
    calc {
      Or(x * (p * q), y * q);
      == { MulAssoc(x, p, q); }
      Or((x * p) * q, y * q);
      == { OrScale(x * p, y, k); }
      Or(x * p, y) * q;
      == { OrDisjoint(x, y, d); }
      (x * p + y) * q;
    }
  }

  lemma MulAssoc(a: int, b: int, c: int)
    ensures a * (b * c) == (a * b) * c
  {
  }

  /** An OR is a 16-bit word exactly when both operands are. */
  lemma OrU16(a: int, b: int)
    ensures IsU16(Or(a, b)) <==> IsU16(a) && IsU16(b)
  {
    Pow2Values();
    if a < 0 || b < 0 {
      OrNegative(a, b);
    } else {
      OrBound(a, b, 16);
    }
  }

  /** The flags word packs exactly when every shifted field does. */
  lemma FlagsRange(h: Header)
    ensures IsU16(Flags(h)) <==> FlagsFit(h)
  {
    var qr, op, rc := h.qr.Value(), h.opcode.Value(), h.rcode.Value();
    var f1 := Or(qr * 0x8000, op * 0x800);
    var f2 := Or(f1, h.aa * 0x400);
    var f3 := Or(f2, h.tc * 0x200);
    var f4 := Or(f3, h.rd * 0x100);
    var f5 := Or(f4, h.ra * 0x80);
    var f6 := Or(f5, h.z * 0x10);
    OrU16(qr * 0x8000, op * 0x800);
    OrU16(f1, h.aa * 0x400);
    OrU16(f2, h.tc * 0x200);
    OrU16(f3, h.rd * 0x100);
    OrU16(f4, h.ra * 0x80);
    OrU16(f5, h.z * 0x10);
    OrU16(f6, rc);
  }

  /** With every field in width, the OR of the shifted fields is their sum:
      the high octet holds qr, opcode, aa, tc, rd and the low one ra, z, rcode. */
  lemma FlagsLayout(h: Header)
    requires InWidth(h)
    ensures Flags(h) == FlagsHigh(h) * 256 + FlagsLow(h)
  {
    Pow2Values();
    var qr, op, rc := h.qr.Value(), h.opcode.Value(), h.rcode.Value();
    var f1 := Or(qr * 0x8000, op * 0x800);
    var s1 := qr * 16 + op;
    assert f1 == s1 * 0x800 by { OrAppend(qr, op, 4, 11, 16, 0x800); }
    var f2 := Or(f1, h.aa * 0x400);
    var s2 := s1 * 2 + h.aa;
    assert f2 == s2 * 0x400 by { OrAppend(s1, h.aa, 1, 10, 2, 0x400); }
    var f3 := Or(f2, h.tc * 0x200);
    var s3 := s2 * 2 + h.tc;
    assert f3 == s3 * 0x200 by { OrAppend(s2, h.tc, 1, 9, 2, 0x200); }
    var f4 := Or(f3, h.rd * 0x100);
    var s4 := s3 * 2 + h.rd;
    assert f4 == s4 * 0x100 by { OrAppend(s3, h.rd, 1, 8, 2, 0x100); }
    var f5 := Or(f4, h.ra * 0x80);
    var s5 := s4 * 2 + h.ra;
    assert f5 == s5 * 0x80 by { OrAppend(s4, h.ra, 1, 7, 2, 0x80); }
    var f6 := Or(f5, h.z * 0x10);
    var s6 := s5 * 8 + h.z;
    assert f6 == s6 * 0x10 by { OrAppend(s5, h.z, 3, 4, 8, 0x10); }
    assert Or(f6, rc) == s6 * 0x10 + rc by { OrAppend(s6, rc, 4, 0, 16, 0x1); }
  }

  /** The fields of an in-width header read back from its two flag octets. */
  lemma FlagOctetFields(h: Header)
    requires InWidth(h)
    ensures 0 <= FlagsHigh(h) < 256 && 0 <= FlagsLow(h) < 256
    ensures FlagsHigh(h) / 128 == h.qr.Value()
    ensures FlagsHigh(h) / 8 % 16 == h.opcode.Value()
    ensures FlagsHigh(h) / 4 % 2 == h.aa
    ensures FlagsHigh(h) / 2 % 2 == h.tc
    ensures FlagsHigh(h) % 2 == h.rd
    ensures FlagsLow(h) / 128 == h.ra
    ensures FlagsLow(h) / 16 % 8 == h.z
    ensures FlagsLow(h) % 16 == h.rcode.Value()
  {
    var qr, op, rc := h.qr.Value(), h.opcode.Value(), h.rcode.Value();
    var high, low := FlagsHigh(h), FlagsLow(h);
    assert high == qr * 128 + op * 8 + h.aa * 4 + h.tc * 2 + h.rd;
    assert high / 8 == qr * 16 + op;
    assert high / 4 == qr * 32 + op * 2 + h.aa;
    assert high / 2 == qr * 64 + op * 4 + h.aa * 2 + h.tc;
    assert low == h.ra * 128 + h.z * 16 + rc;
    assert low / 16 == h.ra * 8 + h.z;
  }

  /** An octet is the sum of its bit fields: qr, opcode, aa, tc, rd. */
  lemma OctetOfFlagFields(b: Byte)
    ensures b == b / 128 * 128 + b / 8 % 16 * 8 + b / 4 % 2 * 4 + b / 2 % 2 * 2 + b % 2
  {
    var h1 := b / 2;
    var h2 := h1 / 2;
    var h3 := h2 / 2;
    assert b == 2 * h1 + b % 2;
    assert h1 == 2 * h2 + h1 % 2;
    assert h2 == 2 * h3 + h2 % 2;
    assert h3 == 16 * (h3 / 16) + h3 % 16;
    assert b / 4 == h2;
    assert b / 8 == h3;
    assert b / 128 == h3 / 16;
  }

  /** An octet is the sum of its bit fields: ra, z, rcode. */
  lemma OctetOfCodeFields(b: Byte)
    ensures b == b / 128 * 128 + b / 16 % 8 * 16 + b % 16
  {
    var a, r1 := b / 128, b % 128;
    assert b == a * 128 + r1;
    assert b / 16 == a * 8 + r1 / 16;
  }

  /** The flags word of an in-width header packs as its two flag octets. */
  lemma FlagsOctets(h: Header)
    requires InWidth(h)
    ensures IsU16(Flags(h)) && U16(Flags(h)) == [FlagsHigh(h), FlagsLow(h)]
  {
    FlagsLayout(h);
    FlagOctetFields(h);
    OctetPair(FlagsHigh(h), FlagsLow(h));
  }

  lemma OctetPair(high: int, low: int)
    requires 0 <= high < 256 && 0 <= low < 256
    ensures IsU16(high * 256 + low) && U16(high * 256 + low) == [high, low]
  {
  }

  /** How the flag octets of an in-width header parse. */
  lemma ParseFlagOctets(h: Header)
    requires InWidth(h)
    ensures MessageTypeOf(Masked(FlagsHigh(h), 0x80, 7)) == Ok(h.qr)
    ensures OpCodeOf(Masked(FlagsHigh(h), 0x78, 3)) == Ok(h.opcode)
    ensures ResponseCodeOf(Masked(FlagsLow(h), 0x0f, 0)) == Ok(h.rcode)
    ensures Masked(FlagsHigh(h), 0x04, 2) == h.aa
    ensures Masked(FlagsHigh(h), 0x02, 1) == h.tc
    ensures Masked(FlagsHigh(h), 0x01, 0) == h.rd
    ensures Masked(FlagsLow(h), 0x80, 7) == h.ra
    ensures Masked(FlagsLow(h), 0x70, 4) == h.z
  {
    FlagOctetFields(h);
    var high, low := FlagsHigh(h), FlagsLow(h);
    MaskedHigh(high);
    MaskedOpCode(high);
    MaskedBit2(high);
    MaskedBit1(high);
    MaskedBit0(high);
    MaskedHigh(low);
    MaskedZ(low);
    MaskedRCode(low);
    MessageTypeCodes(h.qr.Value(), h.qr);
    OpCodeCodes(h.opcode.Value(), h.opcode);
    ResponseCodeCodes(h.rcode.Value(), h.rcode);
  }

  /** Parsing twelve octets whose flag octets and words carry h's fields gives h. */
  lemma FromBytesOf(data: seq<Byte>, h: Header)
    requires |data| >= 12 && InWidth(h)
    requires data[2] == FlagsHigh(h) && data[3] == FlagsLow(h)
    requires BigEndian(data[0..2]) == h.id && BigEndian(data[4..6]) == h.qdcount
    requires BigEndian(data[6..8]) == h.ancount && BigEndian(data[8..10]) == h.nscount
    requires BigEndian(data[10..12]) == h.arcount
    ensures FromBytes(data) == Ok(h)
  {
    ParseFlagOctets(h);
  }

  /** Serialization fails with struct.error exactly when a word is out of
      range, and otherwise yields 12 octets carrying the id and the counts
      big-endian in their places. */
  lemma SerializeOutcome(h: Header)
    ensures Serialize(h).Ok? <==>
      IsU16(h.id) && FlagsFit(h) && IsU16(h.qdcount) && IsU16(h.ancount)
      && IsU16(h.nscount) && IsU16(h.arcount)
    ensures Serialize(h).Err? ==> Serialize(h).error == StructError
    ensures Serialize(h).Ok? ==>
      var w := Serialize(h).value;
      |w| == 12 && BigEndian(w[0..2]) == h.id && BigEndian(w[2..4]) == Flags(h)
      && BigEndian(w[4..6]) == h.qdcount && BigEndian(w[6..8]) == h.ancount
      && BigEndian(w[8..10]) == h.nscount && BigEndian(w[10..12]) == h.arcount
  {
    FlagsRange(h);
    if Serialize(h).Ok? {
      var w := Serialize(h).value;
      assert w[0..2] == U16(h.id);
      assert w[2..4] == U16(Flags(h));
      assert w[4..6] == U16(h.qdcount);
      assert w[6..8] == U16(h.ancount);
      assert w[8..10] == U16(h.nscount);
      assert w[10..12] == U16(h.arcount);
    }
  }

  /** Parsing accepts any buffer of at least 4 octets whose opcode and rcode
      name a member: IndexError below 4 octets, ValueError otherwise. */
  lemma FromBytesOutcome(data: seq<Byte>)
    ensures FromBytes(data).Ok? <==>
      |data| >= 4 && data[2] / 8 % 16 <= 2 && data[3] % 16 in {0, 1, 2, 3, 8, 9}
    ensures |data| < 4 ==> FromBytes(data) == Err(IndexError)
    ensures |data| >= 4 && FromBytes(data).Err? ==> FromBytes(data).error == ValueError
  {
    if |data| >= 4 {
      MaskedHigh(data[2]);
      MaskedOpCode(data[2]);
      MaskedRCode(data[3]);
    }
  }

  /** Every header parsed from octets has every field within its width. */
  lemma FromBytesInWidth(data: seq<Byte>)
    requires FromBytes(data).Ok?
    ensures InWidth(FromBytes(data).value)
  {
    MaskedBit2(data[2]);
    MaskedBit1(data[2]);
    MaskedBit0(data[2]);
    MaskedHigh(data[3]);
    MaskedZ(data[3]);
    BigEndianBelow(Slice(data, 0, 2));
    BigEndianBelow(Slice(data, 4, 6));
    BigEndianBelow(Slice(data, 6, 8));
    BigEndianBelow(Slice(data, 8, 10));
    BigEndianBelow(Slice(data, 10, 12));
  }

  lemma BigEndianBelow(bs: seq<Byte>)
    requires |bs| <= 2
    ensures IsU16(BigEndian(bs))
  {
    if |bs| == 2 {
      BigEndianTwo(bs);
    } else if |bs| == 1 {
      assert bs[..0] == [];
    }
  }

  /** Serializing an in-width header and parsing the octets gives it back. */
  lemma HeaderRoundTrip(h: Header)
    requires InWidth(h)
    ensures Serialize(h).Ok? && FromBytes(Serialize(h).value) == Ok(h)
  {
    SerializeInWidth(h);
    var w := Serialize(h).value;
    assert w[0..2] == U16(h.id);
    assert w[4..6] == U16(h.qdcount);
    assert w[6..8] == U16(h.ancount);
    assert w[8..10] == U16(h.nscount);
    assert w[10..12] == U16(h.arcount);
    FromBytesOf(w, h);
  }

  /** The flag octets of a parsed header are the octets it was parsed from. */
  lemma ParsedFlagOctets(data: seq<Byte>)
    requires FromBytes(data).Ok?
    ensures FlagsHigh(FromBytes(data).value) == data[2]
    ensures FlagsLow(FromBytes(data).value) == data[3]
  {
    var h := FromBytes(data).value;
    MaskedHigh(data[2]);
    MaskedOpCode(data[2]);
    MaskedBit2(data[2]);
    MaskedBit1(data[2]);
    MaskedBit0(data[2]);
    MaskedHigh(data[3]);
    MaskedZ(data[3]);
    MaskedRCode(data[3]);
    MessageTypeCodes(data[2] / 128, h.qr);
    OpCodeCodes(data[2] / 8 % 16, h.opcode);
    ResponseCodeCodes(data[3] % 16, h.rcode);
    OctetOfFlagFields(data[2]);
    OctetOfCodeFields(data[3]);
  }

  /** The words of a parsed full header pack back to the octets they came from. */
  lemma ParsedWords(data: seq<Byte>)
    requires |data| >= 12 && FromBytes(data).Ok?
    ensures var h := FromBytes(data).value;
      IsU16(h.id) && U16(h.id) == data[0..2]
      && IsU16(h.qdcount) && U16(h.qdcount) == data[4..6]
      && IsU16(h.ancount) && U16(h.ancount) == data[6..8]
      && IsU16(h.nscount) && U16(h.nscount) == data[8..10]
      && IsU16(h.arcount) && U16(h.arcount) == data[10..12]
  {
    U16OfBigEndian(data[0..2]);
    U16OfBigEndian(data[4..6]);
    U16OfBigEndian(data[6..8]);
    U16OfBigEndian(data[8..10]);
    U16OfBigEndian(data[10..12]);
  }

  /** An in-width header packs as its id, its two flag octets and its counts. */
  lemma SerializeInWidth(h: Header)
    requires InWidth(h)
    ensures Serialize(h) == Ok(U16(h.id) + [FlagsHigh(h), FlagsLow(h)] + U16(h.qdcount)
      + U16(h.ancount) + U16(h.nscount) + U16(h.arcount))
  {
    FlagsOctets(h);
  }

  /** A header whose packed parts are the octets of data packs as data's first 12. */
  lemma PackedOctets(data: seq<Byte>, h: Header)
    requires |data| >= 12 && InWidth(h)
    requires FlagsHigh(h) == data[2] && FlagsLow(h) == data[3]
    requires U16(h.id) == data[0..2] && U16(h.qdcount) == data[4..6] && U16(h.ancount) == data[6..8]
    requires U16(h.nscount) == data[8..10] && U16(h.arcount) == data[10..12]
    ensures Serialize(h) == Ok(data[..12])
  {
    SerializeInWidth(h);
    assert data[..12] == data[0..2] + [data[2], data[3]] + data[4..6] + data[6..8] + data[8..10] + data[10..12];
  }

  /** Parsing a full header and serializing it again reproduces its 12 octets. */
  lemma BytesRoundTrip(data: seq<Byte>)
    requires |data| >= 12 && FromBytes(data).Ok?
    ensures Serialize(FromBytes(data).value) == Ok(data[..12])
  {
    FromBytesInWidth(data);
    ParsedFlagOctets(data);
    ParsedWords(data);
    PackedOctets(data, FromBytes(data).value);
  }

  /** Octets after the twelfth do not affect the parsed header. */
  lemma FromBytesIgnoresRest(data: seq<Byte>, rest: seq<Byte>)
    requires |data| >= 12
    ensures FromBytes(data + rest) == FromBytes(data)
  {
    var all := data + rest;
    assert all[2] == data[2] && all[3] == data[3];
    assert Slice(all, 0, 2) == Slice(data, 0, 2);
    assert Slice(all, 4, 6) == Slice(data, 4, 6);
    assert Slice(all, 6, 8) == Slice(data, 6, 8);
    assert Slice(all, 8, 10) == Slice(data, 8, 10);
    assert Slice(all, 10, 12) == Slice(data, 10, 12);
  }

  /** A 4-octet buffer parses with all four counts 0: the slices past the
      end are empty. */
  lemma ShortHeader(data: seq<Byte>)
    requires |data| == 4 && FromBytes(data).Ok?
    ensures var h := FromBytes(data).value;
      h.qdcount == 0 && h.ancount == 0 && h.nscount == 0 && h.arcount == 0
  {
  }

  /** Fields are shifted but not masked: z = 8 lands on the ra bit, so two
      different headers serialize to the same octets. */
  lemma FieldsOverlap()
    ensures Empty().(z := 8) != Empty().(ra := 1)
    ensures Serialize(Empty().(z := 8)) == Serialize(Empty().(ra := 1))
    ensures Serialize(Empty().(ra := 1)).Ok?
  {
    assert Flags(Empty().(z := 8)) == 0x8080;
    assert Flags(Empty().(ra := 1)) == 0x8080;
  }

  /** `Header.empty().serialize()` is 04 d2 80 00 followed by eight zero octets. */
  lemma EmptyOctets()
    ensures Serialize(Empty()) == Ok([0x04, 0xd2, 0x80, 0, 0, 0, 0, 0, 0, 0, 0, 0])
  {
    assert Flags(Empty()) == 0x8000;
    var w: seq<Byte> := [0x04, 0xd2, 0x80, 0, 0, 0, 0, 0, 0, 0, 0, 0];
    assert U16(1234) + U16(0x8000) + U16(0) + U16(0) + U16(0) + U16(0) == w;
  }

  /** `Header(id=1357).serialize()` is 05 4d followed by ten zero octets. */
  lemma WithIdOctets()
    ensures Serialize(WithId(1357)) == Ok([0x05, 0x4d, 0, 0, 0, 0, 0, 0, 0, 0, 0, 0])
  {
    assert Flags(WithId(1357)) == 0;
    var w: seq<Byte> := [0x05, 0x4d, 0, 0, 0, 0, 0, 0, 0, 0, 0, 0];
    assert U16(1357) + U16(0) + U16(0) + U16(0) + U16(0) + U16(0) == w;
  }

  /** Those twelve octets parse back to `Header.empty()`. */
  lemma EmptyFromOctets()
    ensures FromBytes([0x04, 0xd2, 0x80, 0, 0, 0, 0, 0, 0, 0, 0, 0]) == Ok(Empty())
  {
    EmptyOctets();
    HeaderRoundTrip(Empty());
  }
}
