/** app/dns/record.py: a second question codec and the resource-record
    serialiser (sections 4.1.2 and 4.1.3 of RFC 1035). `BaseRecord.encode`
    picks between the dotted-address form and the label form like
    `Encoding.encode`, without rewriting '@', '-' or '+'. Its
    `_encode_str` and `_encode_ip` loops are the loops of
    `Encoding.encode_domain_name` and `Encoding.encode_ip`, modelled once by
    Encoding.EncodeDomainName and Encoding.EncodeIp. The question reader of
    this file takes the type from the two octets after the name's
    terminator and the class from the two octets after a skipped one. */
module RecordCodec {
  import opened Wire
  import opened Text
  import opened Types
  import opened Encoding
  import Q = QuestionCodec

  /** What `BaseRecord.encode(value)` returns: the dotted-address form when
      the first piece is an integer and `_encode_ip` does not raise
      ValueError, the label form otherwise. */
  function Encode(value: string): Result<seq<Byte>>
  {
    var parts := Split(value, '.');
    if ParseInt(parts[0]).Err? then
      DomainNameWire(parts)
    else
      var ip := IpWire(parts);
      if ip.Err? && ip.error == ValueError then DomainNameWire(parts) else ip
  }

  /** On a value without '@', '-' or '+', `BaseRecord.encode` and
      `Encoding.encode` agree. */
  lemma EncodeAgrees(value: string)
    requires '@' !in value && '-' !in value && '+' !in value
    ensures Encode(value) == Encoding.Encode(value)
  {
    ReplaceAbsent(value, '@', '.');
    ReplaceAbsent(value, '-', '.');
    ReplaceAbsent(value, '+', '.');
  }

  /** The three outcomes of `BaseRecord.encode`: the address form when every
      piece is an integer in 0..255; the label form when some piece is not an
      integer and every integer piece is in 0..255; OverflowError when every
      piece is an integer and one is out of range. */
  lemma EncodeForms(value: string)
    ensures var parts := Split(value, '.');
      AllOctets(parts) ==>
        Encode(value) == IpWire(parts) && Encode(value).Ok? && |Encode(value).value| == |parts|
    ensures var parts := Split(value, '.');
      (forall k :: 0 <= k < |parts| ==> ParseInt(parts[k]).Ok? ==> 0 <= ParseInt(parts[k]).value < 256)
      && (exists k :: 0 <= k < |parts| && ParseInt(parts[k]).Err?) ==>
        Encode(value) == DomainNameWire(parts)
    ensures var parts := Split(value, '.');
      (forall k :: 0 <= k < |parts| ==> ParseInt(parts[k]).Ok?)
      && (exists k :: 0 <= k < |parts| && !(0 <= ParseInt(parts[k]).value < 256)) ==>
        Encode(value) == Err(OverflowError)
  {
    var parts := Split(value, '.');
    IpWireLayout(parts);
    if AllOctets(parts) {
      assert OctetOf(parts[0]).Ok?;
    }
    if (forall k :: 0 <= k < |parts| ==> ParseInt(parts[k]).Ok? ==> 0 <= ParseInt(parts[k]).value < 256)
      && (exists k :: 0 <= k < |parts| && ParseInt(parts[k]).Err?)
    {
      if ParseInt(parts[0]).Ok? {
        IpWireValueError(parts);
      }
    }
    if (forall k :: 0 <= k < |parts| ==> ParseInt(parts[k]).Ok?)
      && (exists k :: 0 <= k < |parts| && !(0 <= ParseInt(parts[k]).value < 256))
    {
      IpWireOverflow(parts);
    }
  }

  /** `Question.serialize` of record.py: `encode(qname)`, then
      `struct.pack('!HH', qtype.value, qclass.value)`. */
  function SerializeQuestion(q: Q.Question): Result<seq<Byte>>
  {
    match Encode(q.qname)
    case Err(e) => Err(e)
    case Ok(name) => Ok(name + U16(q.qtype.Value()) + U16(q.qclass.Value()))
  }

  /** What `Question.from_bytes` of record.py returns. The label walk stops
      at the terminator's index i; the type is `data[i+1:i+3]` and the class
      `data[i+4:i+6]`, both clamped. */
  function QuestionAt(data: seq<Byte>): Result<Q.Question>
  {
    match LabelWalk(data, 0)
    case Err(e) => Err(e)
    case Ok(walk) =>
      var i := walk.1;
      var qtype := BigEndian(Slice(data, i + 1, i + 3));
      var qclass := BigEndian(Slice(data, i + 4, i + 6));
      if walk.0 == [] then Err(IndexError)
      else Q.Lookup(StripDot(walk.0), qtype, qclass)
  }

  /** `Question.from_bytes` of record.py: the label walk, then the type and
      class read after the terminator, and the trailing '.' removed. */
  method FromBytes(data: seq<Byte>) returns (r: Result<Q.Question>)
    ensures r == QuestionAt(data)
  {
    var walk := WalkLabels(data);
    if walk.Err? {
      QuestionAtFails(data, walk.error);
      return Err(walk.error);
    }
    var qname := walk.value.0;
    var i := walk.value.1;
    var qtype := BigEndian(Slice(data, i + 1, i + 3));
    var qclass := BigEndian(Slice(data, i + 4, i + 6));
    if qname == [] {
      QuestionOfWalk(data, qname, i);
      return Err(IndexError);
    }
    ghost var walked := qname;
    if qname[|qname| - 1] == '.' {
      qname := qname[..|qname| - 1];
    }
    r := Q.Lookup(qname, qtype, qclass);
    QuestionOfWalk(data, walked, i);
  }

  lemma QuestionAtFails(data: seq<Byte>, e: Error)
    requires LabelWalk(data, 0) == Err(e)
    ensures QuestionAt(data) == Err(e)
  {
  }

  lemma QuestionOfWalk(data: seq<Byte>, qname: string, i: nat)
    requires LabelWalk(data, 0).Ok?
    requires LabelWalk(data, 0).value.0 == qname && LabelWalk(data, 0).value.1 == i
    ensures QuestionAt(data)
         == if qname == [] then Err(IndexError)
            else Q.Lookup(StripDot(qname), BigEndian(Slice(data, i + 1, i + 3)), BigEndian(Slice(data, i + 4, i + 6)))
  {
  }

  /** What the reader makes of an encoded name followed by `rest`: the name
      joined by '.', the type from octets 0 and 1 of `rest`, the class from
      octets 3 and 4. */
  lemma QuestionAtEncoded(labels: seq<string>, rest: seq<Byte>)
    requires labels != [] && DecodableLabels(labels)
    ensures DomainNameWire(labels).Ok?
    ensures QuestionAt(DomainNameWire(labels).value + rest)
         == Q.Lookup(Join(labels, '.'), BigEndian(Slice(rest, 0, 2)), BigEndian(Slice(rest, 3, 5)))
  {
    DomainNameWireLayout(labels);
    var w := DomainNameWire(labels).value;
    var data := w + rest;
    assert data[0..|w|] == w;
    WalkEncodedName(data, 0, labels);
    StripDotted(labels);
    QuestionAfterName(data, w, rest, Dotted(labels));
  }

  lemma QuestionAfterName(data: seq<Byte>, w: seq<Byte>, rest: seq<Byte>, dotted: string)
    requires data == w + rest && w != [] && dotted != []
    requires LabelWalk(data, 0).Ok?
    requires LabelWalk(data, 0).value.0 == dotted && LabelWalk(data, 0).value.1 == |w| - 1
    ensures QuestionAt(data)
         == Q.Lookup(StripDot(dotted), BigEndian(Slice(rest, 0, 2)), BigEndian(Slice(rest, 3, 5)))
  {
    var i := |w| - 1;
    assert Slice(data, i + 1, i + 3) == Slice(rest, 0, 2) by {
      SliceAfter(w, rest, 0, 2);
    }
    assert Slice(data, i + 4, i + 6) == Slice(rest, 3, 5) by {
      SliceAfter(w, rest, 3, 5);
    }
    QuestionOfWalk(data, dotted, i);
  }

  /** A name in label form: the labels are decodable, contain no '.', and
      the first is not an integer. */
  predicate LabelName(labels: seq<string>)
  {
    && labels != []
    && DecodableLabels(labels)
    && (forall k :: 0 <= k < |labels| ==> '.' !in labels[k])
    && ParseInt(labels[0]).Err?
  }

  /** A name in label form is written as its labels. */
  lemma LabelNameWire(labels: seq<string>)
    requires LabelName(labels)
    ensures Encode(Join(labels, '.')) == DomainNameWire(labels)
    ensures DomainNameWire(labels).Ok?
  {
    SplitJoin(labels, '.');
    DomainNameWireLayout(labels);
  }

  /** Round trip: a question whose name is in label form and which ends the
      buffer is read back as it was written. */
  lemma QuestionRoundTrip(q: Q.Question, labels: seq<string>)
    requires LabelName(labels) && q.qname == Join(labels, '.')
    ensures SerializeQuestion(q).Ok?
    ensures QuestionAt(SerializeQuestion(q).value) == Ok(q)
  {
    var rest := Q.TypeClassWords(q.qtype, q.qclass);
    LabelNameWire(labels);
    var w := DomainNameWire(labels).value;
    SerializedQuestion(q, w, rest);
    QuestionAtEncoded(labels, rest);
    TrailingWords(q.qtype, q.qclass, rest);
    Q.LookupCodes(q.qname, q.qtype.Value(), q.qclass.Value());
    QTypeCodes(q.qtype.Value(), q.qtype);
    QClassCodes(q.qclass.Value(), q.qclass);
  }

  /** `SerializeQuestion` once the name's encoding is known. */
  lemma SerializedQuestion(q: Q.Question, w: seq<Byte>, rest: seq<Byte>)
    requires Encode(q.qname) == Ok(w)
    requires rest == U16(q.qtype.Value()) + U16(q.qclass.Value())
    ensures SerializeQuestion(q) == Ok(w + rest)
  {
    assert w + U16(q.qtype.Value()) + U16(q.qclass.Value()) == w + rest;
  }

  /** The type word and the class octet, as the reader takes them from the
      end of a serialized question. */
  lemma TrailingWords(t: QType, c: QClass, rest: seq<Byte>)
    requires rest == [0, t.Value(), 0, c.Value()]
    ensures BigEndian(Slice(rest, 0, 2)) == t.Value()
    ensures BigEndian(Slice(rest, 3, 5)) == c.Value()
  {
    assert Slice(rest, 0, 2) == [0, t.Value()];
    BigEndianTwo([0, t.Value()]);
    OctetAt(rest, 3);
  }

  /** With any octet after a serialized question, the class reads as
      class * 256 + that octet, which names no class. */
  lemma QuestionFollowed(q: Q.Question, labels: seq<string>, extra: seq<Byte>)
    requires LabelName(labels) && q.qname == Join(labels, '.')
    requires extra != []
    ensures SerializeQuestion(q).Ok?
    ensures QuestionAt(SerializeQuestion(q).value + extra) == Err(ValueError)
  {
    var rest := Q.TypeClassWords(q.qtype, q.qclass);
    LabelNameWire(labels);
    var w := DomainNameWire(labels).value;
    SerializedQuestion(q, w, rest);
    assert (w + rest) + extra == w + (rest + extra);
    QuestionAtEncoded(labels, rest + extra);
    FollowedWords(q.qtype, q.qclass, rest + extra);
    Q.LookupCodes(q.qname, q.qtype.Value(), BigEndian(Slice(rest + extra, 3, 5)));
  }

  lemma FollowedWords(t: QType, c: QClass, data: seq<Byte>)
    requires |data| >= 5 && data[..4] == [0, t.Value(), 0, c.Value()]
    ensures BigEndian(Slice(data, 0, 2)) == t.Value()
    ensures BigEndian(Slice(data, 3, 5)) >= 256
  {
    assert Slice(data, 0, 2) == [0, t.Value()];
    BigEndianTwo([0, t.Value()]);
    assert Slice(data, 3, 5) == [data[3], data[4]];
    BigEndianTwo([data[3], data[4]]);
    assert data[3] == data[..4][3];
  }

  /** What the reader accepts: it stopped on a terminator with at least five
      octets from there on; after the terminator come 0x00 and the type code. */
  lemma QuestionAtAccepts(data: seq<Byte>)
    requires QuestionAt(data).Ok?
    ensures LabelWalk(data, 0).Ok?
    ensures var i := LabelWalk(data, 0).value.1;
      var q := QuestionAt(data).value;
      && i + 5 <= |data| && data[i] == 0
      && data[i + 1] == 0 && data[i + 2] == q.qtype.Value()
      && BigEndian(Slice(data, i + 4, i + 6)) == q.qclass.Value()
  {
    var walk := LabelWalk(data, 0).value;
    var i := walk.1;
    WalkEnds(data, 0);
    QuestionOfWalk(data, walk.0, i);
    var qtype := BigEndian(Slice(data, i + 1, i + 3));
    var qclass := BigEndian(Slice(data, i + 4, i + 6));
    Q.LookupCodes(StripDot(walk.0), qtype, qclass);
    ClassPresent(data, i);
    TypeWord(data, i);
  }

  lemma ClassPresent(data: seq<Byte>, i: nat)
    requires 1 <= BigEndian(Slice(data, i + 4, i + 6))
    ensures i + 5 <= |data|
  {
  }

  lemma TypeWord(data: seq<Byte>, i: nat)
    requires i + 5 <= |data|
    requires 1 <= BigEndian(Slice(data, i + 1, i + 3)) <= 16
    ensures data[i + 1] == 0 && data[i + 2] == BigEndian(Slice(data, i + 1, i + 3))
  {
    assert Slice(data, i + 1, i + 3) == data[i + 1..i + 3];
    BigEndianTwo(data[i + 1..i + 3]);
  }

  /** A resource record: a question's fields, then the time to live, the
      stated RDATA length and the RDATA text (`None` by default). */
  datatype Record = Record(
    qname: string, qtype: QType, qclass: QClass,
    ttl: int, rdlength: int, rdata: Option<string>)

  /** The RDATA octets of `Record.serialize`: `encode(rdata)` for type A, the
      ASCII octets of the text otherwise; `None` has neither `split` nor
      `encode`. */
  function RDataWire(r: Record): Result<seq<Byte>>
  {
    if r.rdata.None? then Err(AttributeError)
    else if r.qtype == A then Encode(r.rdata.value)
    else EncodeAscii(r.rdata.value)
  }

  /** What `Record.serialize` returns: the RDATA is computed first, then the
      encoded name, then `struct.pack('!HHIH', ..)`; the first step that
      raises decides the exception. */
  function SerializeRecord(r: Record): Result<seq<Byte>>
  {
    match RDataWire(r)
    case Err(e) => Err(e)
    case Ok(rdata) =>
      match Encode(r.qname)
      case Err(e) => Err(e)
      case Ok(name) =>
        if IsU32(r.ttl) && IsU16(r.rdlength) then
          Ok(name + U16(r.qtype.Value()) + U16(r.qclass.Value()) + U32(r.ttl) + U16(r.rdlength) + rdata)
        else Err(StructError)
  }

  /** The record layout of section 4.1.3 of RFC 1035: it exists exactly
      when the RDATA and the name encode and the time to live and the length
      fit their fields; it is the name, type, class, time to live, length
      and RDATA, and the length field is written as stored, not as measured. */
  lemma RecordLayout(r: Record)
    ensures SerializeRecord(r).Ok? <==>
      RDataWire(r).Ok? && Encode(r.qname).Ok? && IsU32(r.ttl) && IsU16(r.rdlength)
    ensures RDataWire(r).Err? ==> SerializeRecord(r) == Err(RDataWire(r).error)
    ensures RDataWire(r).Ok? && Encode(r.qname).Err? ==> SerializeRecord(r) == Err(Encode(r.qname).error)
    ensures RDataWire(r).Ok? && Encode(r.qname).Ok? && !(IsU32(r.ttl) && IsU16(r.rdlength)) ==>
      SerializeRecord(r) == Err(StructError)
    ensures SerializeRecord(r).Ok? ==>
      var w := SerializeRecord(r).value;
      var name := Encode(r.qname).value;
      var n := |name|;
      && |w| == n + 10 + |RDataWire(r).value|
      && w[..n] == name
      && w[n..n + 4] == [0, r.qtype.Value(), 0, r.qclass.Value()]
      && BigEndian(w[n + 4..n + 8]) == r.ttl
      && BigEndian(w[n + 8..n + 10]) == r.rdlength
      && w[n + 10..] == RDataWire(r).value
  {
    if SerializeRecord(r).Ok? {
      var name := Encode(r.qname).value;
      var rdata := RDataWire(r).value;
      var words := Q.TypeClassWords(r.qtype, r.qclass);
      var ttl := U32(r.ttl);
      var len := U16(r.rdlength);
      assert SerializeRecord(r).value == name + words + ttl + len + rdata;
      RecordOctets(name, words, ttl, len, rdata);
    }
  }

  lemma RecordOctets(name: seq<Byte>, words: seq<Byte>, ttl: seq<Byte>, len: seq<Byte>, rdata: seq<Byte>)
    requires |words| == 4 && |ttl| == 4 && |len| == 2
    ensures var w := name + words + ttl + len + rdata;
      var n := |name|;
      && |w| == n + 10 + |rdata|
      && w[..n] == name && w[n..n + 4] == words && w[n + 4..n + 8] == ttl
      && w[n + 8..n + 10] == len && w[n + 10..] == rdata
  {
  }

  /** The stated length is never checked against the RDATA: changing it to
      any 16-bit value changes only its own two octets. */
  lemma RdlengthUnchecked(r: Record, len: int)
    requires SerializeRecord(r).Ok? && IsU16(len)
    ensures SerializeRecord(r.(rdlength := len)).Ok?
    ensures var w := SerializeRecord(r).value;
      var w' := SerializeRecord(r.(rdlength := len)).value;
      var n := |Encode(r.qname).value|;
      && |w'| == |w|
      && w'[..n + 8] == w[..n + 8]
      && BigEndian(w'[n + 8..n + 10]) == len
      && w'[n + 10..] == w[n + 10..]
  {
    var r' := r.(rdlength := len);
    RecordLayout(r);
    RecordLayout(r');
    assert RDataWire(r') == RDataWire(r);
    var w := SerializeRecord(r).value;
    var w' := SerializeRecord(r').value;
    var n := |Encode(r.qname).value|;
    assert w[..n + 8] == w[..n] + w[n..n + 4] + w[n + 4..n + 8];
    assert w'[..n + 8] == w'[..n] + w'[n..n + 4] + w'[n + 4..n + 8];
  }

  /** Without RDATA the record cannot be written. */
  lemma RecordWithoutData(r: Record)
    requires r.rdata.None?
    ensures SerializeRecord(r) == Err(AttributeError)
  {
  }
}
