/** The question entry of app/dns/question.py: a name, a type and a class
    (section 4.1.2 of RFC 1035). `encode` writes the name as labels,
    `serialize` appends the type and class as two 16-bit words, and
    `from_bytes` reads a question back. The reader stops ON the name's
    terminator and takes the type from that octet and the next, and the class
    from the two octets after a skipped one: it does not read what
    `serialize` writes. */
module QuestionCodec {
  import opened Wire
  import opened Text
  import opened Types
  import opened Encoding

  datatype Question = Question(qname: string, qtype: QType, qclass: QClass)

  /** `Question(qname=..)`: type A and class IN by default. */
  function Named(qname: string): Question
  {
    Question(qname, A, IN)
  }

  /** What `Question.encode(name)` returns: the pieces of `name.split('.')`
      as labels, then 0x00. No piece is dropped, so a trailing '.' gives an
      empty label before the terminator. */
  function NameWire(name: string): Result<seq<Byte>>
  {
    DomainNameWire(Split(name, '.'))
  }

  /** `Question.encode`, accumulating `res` piece by piece. */
  method Encode(name: string) returns (r: Result<seq<Byte>>)
    ensures r == NameWire(name)
  {
    var parts := Split(name, '.');
    var res: seq<Byte> := [];
    assert parts[0..] == parts;
    AfterNothing(LabelsWire(parts));
    for i := 0 to |parts|
      invariant LabelsWire(parts) == After(res, LabelsWire(parts[i..]))
    {
      assert parts[i..][1..] == parts[i + 1..];
      var asciiPart := EncodeAscii(parts[i]);
      if asciiPart.Err? {
        return Err(asciiPart.error);
      }
      if |asciiPart.value| > 255 {
        return Err(OverflowError);
      }
      AfterAfter(res, [|asciiPart.value|] + asciiPart.value, LabelsWire(parts[i + 1..]));
      res := res + ([|asciiPart.value|] + asciiPart.value);
    }
    assert parts[|parts|..] == [];
    assert res + [] == res;
    res := res + [0];
    return Ok(res);
  }

  /** `question.serialize()`: the encoded name, then `struct.pack('>HH',
      qtype.value, qclass.value)`. */
  function Serialize(q: Question): Result<seq<Byte>>
  {
    match NameWire(q.qname)
    case Err(e) => Err(e)
    case Ok(name) => Ok(name + U16(q.qtype.Value()) + U16(q.qclass.Value()))
  }

  /** What `Question.from_bytes(data)` returns. The label walk stops at the
      terminator's index i (or at or past the end); the type is
      `data[i:i+2]` and the class `data[i+3:i+5]`, both clamped. An empty
      name raises IndexError before the type and then the class are looked up. */
  function QuestionAt(data: seq<Byte>): Result<Question>
  {
    match LabelWalk(data, 0)
    case Err(e) => Err(e)
    case Ok(walk) =>
      var i := walk.1;
      var qtype := BigEndian(Slice(data, i, i + 2));
      var qclass := BigEndian(Slice(data, i + 3, i + 5));
      if walk.0 == [] then Err(IndexError)
      else Lookup(StripDot(walk.0), qtype, qclass)
  }

  /** `cls(qname=.., qtype=QType(qtype), qclass=QClass(qclass))`: the type is
      looked up first. */
  function Lookup(qname: string, qtype: int, qclass: int): Result<Question>
  {
    match QTypeOf(qtype)
    case Err(e) => Err(e)
    case Ok(t) =>
      match QClassOf(qclass)
      case Err(e) => Err(e)
      case Ok(c) => Ok(Question(qname, t, c))
  }

  /** `Question.from_bytes`: the label walk, then the type and class read
      from where it stopped, and the trailing '.' removed. */
  method FromBytes(data: seq<Byte>) returns (r: Result<Question>)
    ensures r == QuestionAt(data)
  {
    var walk := WalkLabels(data);
    if walk.Err? {
      QuestionAtFails(data, walk.error);
      return Err(walk.error);
    }
    var qname := walk.value.0;
    var i := walk.value.1;
    var qtype := BigEndian(Slice(data, i, i + 2));
    var qclass := BigEndian(Slice(data, i + 3, i + 5));
    if qname == [] {
      QuestionOfWalk(data, qname, i);
      return Err(IndexError);
    }
    ghost var walked := qname;
    if qname[|qname| - 1] == '.' {
      qname := qname[..|qname| - 1];
    }
    r := Lookup(qname, qtype, qclass);
    QuestionOfWalk(data, walked, i);
  }

  /** A label that does not decode fails the whole read. */
  lemma QuestionAtFails(data: seq<Byte>, e: Error)
    requires LabelWalk(data, 0) == Err(e)
    ensures QuestionAt(data) == Err(e)
  {
  }

  /** QuestionAt once the walk is known. */
  lemma QuestionOfWalk(data: seq<Byte>, qname: string, i: nat)
    requires LabelWalk(data, 0).Ok?
    requires LabelWalk(data, 0).value.0 == qname && LabelWalk(data, 0).value.1 == i
    ensures QuestionAt(data)
         == if qname == [] then Err(IndexError)
            else Lookup(StripDot(qname), BigEndian(Slice(data, i, i + 2)), BigEndian(Slice(data, i + 3, i + 5)))
  {
  }

  /** A dotted name whose pieces are labels encodes as those labels. */
  lemma NameWireOfLabels(labels: seq<string>)
    requires |labels| >= 1 && forall k :: 0 <= k < |labels| ==> '.' !in labels[k]
    ensures NameWire(Join(labels, '.')) == DomainNameWire(labels)
  {
    SplitJoin(labels, '.');
  }

  /** A serialized question exists exactly when every piece of the name is a
      label that fits; it is the encoded name, followed by 0x00 and the type
      code, then 0x00 and the class code. */
  lemma SerializeLayout(q: Question)
    ensures Serialize(q).Ok? <==> ValidLabels(Split(q.qname, '.'))
    ensures Serialize(q).Ok? ==>
      var w := Serialize(q).value;
      && |w| == WireLength(Split(q.qname, '.')) + 4
      && w[..|w| - 4] == NameWire(q.qname).value
      && w[|w| - 4..] == [0, q.qtype.Value(), 0, q.qclass.Value()]
  {
    DomainNameWireLayout(Split(q.qname, '.'));
    if NameWire(q.qname).Ok? {
      var name := NameWire(q.qname).value;
      var rest := TypeClassWords(q.qtype, q.qclass);
      SerializeOfName(q, name, rest);
      assert (name + rest)[..|name|] == name;
      assert (name + rest)[|name|..] == rest;
    }
  }

  /** What the reader makes of an encoded name followed by `rest`: the name
      comes back joined by '.', the type is the first octet of `rest` alone
      (its high octet is the terminator), and the class is octets 2 and 3 of
      `rest`. */
  lemma QuestionAtEncoded(labels: seq<string>, rest: seq<Byte>)
    requires labels != [] && DecodableLabels(labels)
    ensures DomainNameWire(labels).Ok?
    ensures QuestionAt(DomainNameWire(labels).value + rest)
         == Lookup(Join(labels, '.'), BigEndian(Slice(rest, 0, 1)), BigEndian(Slice(rest, 2, 4)))
  {
    DomainNameWireLayout(labels);
    var w := DomainNameWire(labels).value;
    var data := w + rest;
    assert data[0..|w|] == w;
    WalkEncodedName(data, 0, labels);
    StripDotted(labels);
    QuestionAfterName(data, w, rest, Dotted(labels));
  }

  /** QuestionAt when the walk stops on the last octet of `w`, a 0x00. */
  lemma QuestionAfterName(data: seq<Byte>, w: seq<Byte>, rest: seq<Byte>, dotted: string)
    requires data == w + rest && w != [] && w[|w| - 1] == 0 && dotted != []
    requires LabelWalk(data, 0).Ok?
    requires LabelWalk(data, 0).value.0 == dotted && LabelWalk(data, 0).value.1 == |w| - 1
    ensures QuestionAt(data)
         == Lookup(StripDot(dotted), BigEndian(Slice(rest, 0, 1)), BigEndian(Slice(rest, 2, 4)))
  {
    QuestionOfWalk(data, dotted, |w| - 1);
    SlicesAfterName(w, rest);
    BigEndianLeadingZero(Slice(rest, 0, 1));
  }

  /** The octets the reader takes for the type and the class, when it stops
      on the last octet 0x00 of `w`. */
  lemma SlicesAfterName(w: seq<Byte>, rest: seq<Byte>)
    requires w != [] && w[|w| - 1] == 0
    ensures var i := |w| - 1;
      && Slice(w + rest, i, i + 2) == [0] + Slice(rest, 0, 1)
      && Slice(w + rest, i + 3, i + 5) == Slice(rest, 2, 4)
  {
    var data := w + rest;
    var i := |w| - 1;
    if rest == [] {
      assert Slice(data, i, i + 2) == [0];
    } else {
      assert Slice(data, i, i + 2) == [0, rest[0]];
      assert Slice(rest, 0, 1) == [rest[0]];
    }
    if |rest| >= 4 {
      assert Slice(data, i + 3, i + 5) == rest[2..4];
    } else if |rest| == 3 {
      assert Slice(data, i + 3, i + 5) == rest[2..];
    }
  }

  /** A leading 0x00 octet does not change a big-endian value. */
  lemma {:induction false} BigEndianLeadingZero(bs: seq<Byte>)
    ensures BigEndian([0] + bs) == BigEndian(bs)
  {
    if bs != [] {
      assert ([0] + bs)[..|bs|] == [0] + bs[..|bs| - 1];
      BigEndianLeadingZero(bs[..|bs| - 1]);
    } else {
      assert ([0] + bs)[..0] == [];
    }
  }

  /** The lookups succeed exactly when both codes name a member, and then
      the question carries those codes; an unknown type is reported before
      the class is looked at. */
  lemma LookupCodes(qname: string, qtype: int, qclass: int)
    ensures Lookup(qname, qtype, qclass).Ok? <==> 1 <= qtype <= 16 && 1 <= qclass <= 4
    ensures Lookup(qname, qtype, qclass).Ok? ==>
      var q := Lookup(qname, qtype, qclass).value;
      q.qname == qname && q.qtype.Value() == qtype && q.qclass.Value() == qclass
    ensures Lookup(qname, qtype, qclass).Err? ==> Lookup(qname, qtype, qclass).error == ValueError
  {
    var t := QTypeOf(qtype);
    QTypeCodes(qtype, if t.Ok? then t.value else A);
    var c := QClassOf(qclass);
    QClassCodes(qclass, if c.Ok? then c.value else IN);
  }

  /** `from_bytes` does not undo `serialize`: for a name of non-empty
      labels, the type it reads is the octet 0x00 that `serialize` wrote as
      the high half of the type, and no type has code 0. */
  lemma NoRoundTrip(q: Question, labels: seq<string>)
    requires labels != [] && DecodableLabels(labels)
    requires forall k :: 0 <= k < |labels| ==> '.' !in labels[k]
    requires q.qname == Join(labels, '.')
    ensures Serialize(q).Ok?
    ensures QuestionAt(Serialize(q).value) == Err(ValueError)
  {
    var rest := TypeClassWords(q.qtype, q.qclass);
    NameWireOfLabels(labels);
    ZeroTypeRejected(labels, rest);
    SerializeOfName(q, DomainNameWire(labels).value, rest);
  }

  /** A name that is empty or starts with '.' has an empty first piece,
      written as a lone 0x00: the reader stops on it with no text and
      `qname[-1]` raises IndexError. */
  lemma LeadingEmptyLabel(q: Question)
    requires Serialize(q).Ok?
    requires q.qname == [] || q.qname[0] == '.'
    ensures QuestionAt(Serialize(q).value) == Err(IndexError)
  {
    var labels := Split(q.qname, '.');
    assert labels[0] == [];
    assert ValidLabel(labels[0]);
    DomainNameWireCons(labels);
    assert AsciiBytes([]) == [];
    var data := Serialize(q).value;
    assert data[0] == 0;
    QuestionOfWalk(data, [], 0);
  }

  /** A name of non-empty labels followed by a trailing '.': the empty last
      piece puts a 0x00 right after the terminator, the reader stops on the
      terminator, and the type it reads is 0, so ValueError. */
  lemma TrailingDot(q: Question, labels: seq<string>)
    requires labels != [] && DecodableLabels(labels)
    requires forall k :: 0 <= k < |labels| ==> '.' !in labels[k]
    requires q.qname == Join(labels, '.') + "."
    ensures Serialize(q).Ok?
    ensures QuestionAt(Serialize(q).value) == Err(ValueError)
  {
    TrailingDotWire(labels);
    var rest := ZeroBeforeWords(q, DomainNameWire(labels).value);
    ZeroTypeRejected(labels, rest);
  }

  /** Serialize of a name whose encoding ends in one extra 0x00. */
  lemma ZeroBeforeWords(q: Question, name: seq<Byte>) returns (rest: seq<Byte>)
    requires NameWire(q.qname) == Ok(name + [0])
    ensures rest != [] && rest[0] == 0
    ensures Serialize(q) == Ok(name + rest)
  {
    var words := TypeClassWords(q.qtype, q.qclass);
    SerializeOfName(q, name + [0], words);
    rest := [0] + words;
    assert name + [0] + words == name + rest;
  }

  /** The pieces of a name with a trailing '.' are its labels and an empty
      one, written as the labels' encoding followed by one more 0x00. */
  lemma TrailingDotWire(labels: seq<string>)
    requires labels != [] && DecodableLabels(labels)
    requires forall k :: 0 <= k < |labels| ==> '.' !in labels[k]
    ensures DomainNameWire(labels).Ok?
    ensures NameWire(Join(labels, '.') + ".") == Ok(DomainNameWire(labels).value + [0])
  {
    var pieces := labels + [[]];
    JoinEmptyLast(labels, '.');
    forall k | 0 <= k < |pieces| ensures '.' !in pieces[k] {
      if k < |labels| {
        assert pieces[k] == labels[k];
      }
    }
    SplitJoin(pieces, '.');
    DomainNameWireLayout(labels);
    LabelsWireEmptyLast(labels);
  }

  /** An empty piece inside the name is not rejected: the reader stops on its
      0x00 with the text before it, and takes the type and class from the
      pieces that follow. "a..b..cc" serializes as 01 61 00 01 62 00 02 63 63
      00 00 01 00 01 and reads back as the question "a" of type A (0x00 0x01)
      and class CS (0x00 0x02). */
  lemma EmptyLabelInside()
    ensures Serialize(Named("a..b..cc")).Ok?
    ensures QuestionAt(Serialize(Named("a..b..cc")).value) == Ok(Question("a", A, CS))
  {
    InsideQuestion(Named("a..b..cc"), "a..b..cc", Question("a", A, CS));
  }

  lemma InsideQuestion(q: Question, name: string, r: Question)
    requires name == "a..b..cc" && q == Named(name) && r == Question("a", A, CS)
    ensures Serialize(q).Ok? && QuestionAt(Serialize(q).value) == Ok(r)
  {
    var labels := ["a", "", "b", "", "cc"];
    InsideName(labels);
    var w: seq<Byte> := [1, 97, 0, 1, 98, 0, 2, 99, 99, 0];
    InsideWire(labels, w);
    assert NameWire(q.qname) == DomainNameWire(labels);
    var words := TypeClassWords(A, IN);
    SerializeOfName(q, w, words);
    InsideRead(w, words);
  }

  lemma InsideName(labels: seq<string>)
    requires labels == ["a", "", "b", "", "cc"]
    ensures Split("a..b..cc", '.') == labels
  {
    var s1, s2, s3, s4 := labels[1..], labels[2..], labels[3..], labels[4..];
    assert s1[1..] == s2 && s2[1..] == s3 && s3[1..] == s4 && |s4| == 1;
    assert Join(s4, '.') == "cc";
    assert Join(s3, '.') == "" + "." + "cc" == ".cc";
    assert Join(s2, '.') == "b" + "." + ".cc" == "b..cc";
    assert Join(s1, '.') == "" + "." + "b..cc" == ".b..cc";
    assert Join(labels, '.') == "a" + "." + ".b..cc" == "a..b..cc";
    SplitJoin(labels, '.');
  }

  lemma InsideWire(labels: seq<string>, w: seq<Byte>)
    requires labels == ["a", "", "b", "", "cc"]
    requires w == [1, 97, 0, 1, 98, 0, 2, 99, 99, 0]
    ensures DomainNameWire(labels) == Ok(w)
  {
    var s1, s2, s3, s4 := labels[1..], labels[2..], labels[3..], labels[4..];
    assert s1[1..] == s2 && s2[1..] == s3 && s3[1..] == s4 && s4[1..] == [];
    var la: seq<Byte> := [1, 97];
    var lb: seq<Byte> := [1, 98];
    var lc: seq<Byte> := [2, 99, 99];
    var le: seq<Byte> := [0];
    LabelOf("a", [97], la);
    LabelOf("", [], le);
    LabelOf("b", [98], lb);
    LabelOf("cc", [99, 99], lc);
    var none: seq<Byte> := [];
    assert LabelsWire(s4) == Ok(lc + none);
    assert LabelsWire(s3) == Ok(le + (lc + none));
    assert LabelsWire(s2) == Ok(lb + (le + (lc + none)));
    assert LabelsWire(s1) == Ok(le + (lb + (le + (lc + none))));
    assert LabelsWire(labels) == Ok(la + (le + (lb + (le + (lc + none)))));
    assert la + (le + (lb + (le + (lc + none)))) + [0] == w;
  }

  /** The label of an ASCII word given octet by octet. */
  lemma LabelOf(s: string, bs: seq<Byte>, octets: seq<Byte>)
    requires |s| == |bs| <= 255 && forall k :: 0 <= k < |s| ==> s[k] as int == bs[k] < 128
    requires octets == [|bs|] + bs
    ensures LabelWire(s) == Ok(octets)
  {
    AsciiWord(s, bs);
  }

  lemma InsideRead(w: seq<Byte>, words: seq<Byte>)
    requires w == [1, 97, 0, 1, 98, 0, 2, 99, 99, 0] && words == [0, 1, 0, 1]
    ensures QuestionAt(w + words) == Ok(Question("a", A, CS))
  {
    var data := w + words;
    assert data[..10] == w;
    InsideWalk(data);
    QuestionOfWalk(data, "a.", 2);
    var tw: seq<Byte> := [0, 1];
    var cw: seq<Byte> := [0, 2];
    assert Slice(data, 2, 4) == tw && Slice(data, 5, 7) == cw;
    BigEndianTwo(tw);
    BigEndianTwo(cw);
    assert StripDot("a.") == "a";
    LookupCodes("a", 1, 2);
    QTypeCodes(1, A);
    QClassCodes(2, CS);
  }

  /** The walk reads "a" and stops on the 0x00 of the empty piece. */
  lemma InsideWalk(data: seq<Byte>)
    requires |data| > 2 && data[0] == 1 && data[1] == 97 && data[2] == 0
    ensures LabelWalk(data, 0) == Ok(("a.", 2))
  {
    var none: string := [];
    assert LabelWalk(data, 2) == Ok((none, 2));
    var octet: seq<Byte> := [97];
    assert Slice(data, 1, 2) == octet;
    AsciiWord("a", octet);
    AsciiRoundTrip("a", octet);
    assert "a" + "." + none == "a.";
    assert LabelWalk(data, 0) == Behind("a" + ".", LabelWalk(data, 2));
  }

  /** Serialize once the name's encoding is known. */
  lemma SerializeOfName(q: Question, w: seq<Byte>, rest: seq<Byte>)
    requires NameWire(q.qname) == Ok(w)
    requires rest == U16(q.qtype.Value()) + U16(q.qclass.Value())
    ensures Serialize(q) == Ok(w + rest)
  {
    assert w + U16(q.qtype.Value()) + U16(q.qclass.Value()) == w + rest;
  }

  /** An encoded name followed by a 0x00 octet reads as type 0. */
  lemma ZeroTypeRejected(labels: seq<string>, rest: seq<Byte>)
    requires labels != [] && DecodableLabels(labels)
    requires rest != [] && rest[0] == 0
    ensures DomainNameWire(labels).Ok?
    ensures QuestionAt(DomainNameWire(labels).value + rest) == Err(ValueError)
  {
    OctetAt(rest, 0);
    LookupCodes(Join(labels, '.'), 0, BigEndian(Slice(rest, 2, 4)));
    QuestionAtEncoded(labels, rest);
  }

  /** The type and class words as `serialize` packs them: each code fits its
      low octet. */
  lemma TypeClassWords(t: QType, c: QClass) returns (words: seq<Byte>)
    ensures words == U16(t.Value()) + U16(c.Value())
    ensures words == [0, t.Value(), 0, c.Value()]
  {
    words := U16(t.Value()) + U16(c.Value());
  }

  /** What the reader accepts: the walk reached a terminator with at least
      four octets from it on; the type is the octet after it and the class
      the one or two octets after a skipped one. */
  lemma QuestionAtAccepts(data: seq<Byte>)
    requires QuestionAt(data).Ok?
    ensures LabelWalk(data, 0).Ok?
    ensures var i := LabelWalk(data, 0).value.1;
      var q := QuestionAt(data).value;
      && i + 4 <= |data| && data[i] == 0
      && data[i + 1] == q.qtype.Value()
      && BigEndian(Slice(data, i + 3, i + 5)) == q.qclass.Value()
  {
    var walk := LabelWalk(data, 0).value;
    var i := walk.1;
    WalkEnds(data, 0);
    QuestionOfWalk(data, walk.0, i);
    var qtype := BigEndian(Slice(data, i, i + 2));
    var qclass := BigEndian(Slice(data, i + 3, i + 5));
    LookupCodes(StripDot(walk.0), qtype, qclass);
    TypeAfterStop(data, i);
    ClassPresent(data, i);
  }

  /** A type code read from where the walk stopped, if it names a type,
      came from two octets, a 0x00 and the code. */
  lemma TypeAfterStop(data: seq<Byte>, i: nat)
    requires i >= |data| || data[i] == 0
    requires 1 <= BigEndian(Slice(data, i, i + 2)) <= 16
    ensures i + 2 <= |data| && data[i] == 0 && data[i + 1] == BigEndian(Slice(data, i, i + 2))
  {
    if i + 2 <= |data| {
      assert Slice(data, i, i + 2) == data[i..i + 2];
      BigEndianTwo(data[i..i + 2]);
    }
  }

  /** A class code that names a class came from at least one octet at i + 3. */
  lemma ClassPresent(data: seq<Byte>, i: nat)
    requires 1 <= BigEndian(Slice(data, i + 3, i + 5))
    ensures i + 4 <= |data|
  {
  }

  /** `s` is ASCII without a '.', and `bs` are its octets. */
  predicate Spells(s: string, bs: seq<Byte>)
  {
    |s| == |bs| && forall k :: 0 <= k < |s| ==> s[k] as int == bs[k] < 128 && bs[k] != '.' as int
  }

  /** A name of two labels: `name.split('.')` gives them back, and they are
      written one after the other. */
  lemma TwoLabelName(a: string, b: string, wa: seq<Byte>, wb: seq<Byte>)
    requires Spells(a, wa) && Spells(b, wb) && 0 < |a| <= 255 && 0 < |b| <= 255
    ensures DecodableLabels([a, b]) && '.' !in a && '.' !in b
    ensures Split(a + "." + b, '.') == [a, b]
    ensures Join([a, b], '.') == a + "." + b
    ensures NameWire(a + "." + b) == DomainNameWire([a, b])
    ensures DomainNameWire([a, b]) == Ok([|wa|] + wa + [|wb|] + wb + [0])
  {
    AsciiWord(a, wa);
    AsciiWord(b, wb);
    assert DecodableLabels([a, b]) by {
      forall k | 0 <= k < 2 ensures ValidLabel([a, b][k]) && |[a, b][k]| > 0 {
      }
    }
    TwoPieces(a, b);
    TwoLabelsWire(a, b);
  }

  lemma TwoPieces(a: string, b: string)
    requires '.' !in a && '.' !in b
    ensures Split(a + "." + b, '.') == [a, b]
    ensures Join([a, b], '.') == a + "." + b
  {
    SplitAfterSep(a, b, '.');
    SplitWithoutSep(b, '.');
    assert [a] + [b] == [a, b];
    assert [a, b][1..] == [b];
  }

  lemma TwoLabelsWire(a: string, b: string)
    requires ValidLabel(a) && ValidLabel(b)
    ensures DomainNameWire([a, b]) == Ok([|a|] + AsciiBytes(a) + [|b|] + AsciiBytes(b) + [0])
  {
    EmptyNameWire();
    assert [a, b][1..] == [b] && [b][1..] == [];
    DomainNameWireCons([a, b]);
    DomainNameWireCons([b]);
    var ha := [|a|] + AsciiBytes(a);
    var hb := [|b|] + AsciiBytes(b);
    assert ha + (hb + [0]) == [|a|] + AsciiBytes(a) + [|b|] + AsciiBytes(b) + [0];
  }

  /** A question of a two-label name read back from its encoding followed by
      one octet of type and the class octets 0x00 0x01. */
  lemma TwoLabelQuestion(a: string, b: string, wa: seq<Byte>, wb: seq<Byte>, code: Byte, t: QType)
    requires Spells(a, wa) && Spells(b, wb) && 0 < |a| <= 255 && 0 < |b| <= 255
    requires t.Value() == code
    ensures QuestionAt([|wa|] + wa + [|wb|] + wb + [0] + [code, 0x00, 0x01]) == Ok(Question(a + "." + b, t, IN))
  {
    TwoLabelName(a, b, wa, wb);
    FromBytesVector([a, b], [|wa|] + wa + [|wb|] + wb + [0], code, t);
  }

  lemma FromBytesVector(labels: seq<string>, w: seq<Byte>, code: Byte, t: QType)
    requires |labels| == 2 && DecodableLabels(labels) && DomainNameWire(labels) == Ok(w)
    requires t.Value() == code
    ensures QuestionAt(w + [code, 0x00, 0x01]) == Ok(Question(Join(labels, '.'), t, IN))
  {
    var rest: seq<Byte> := [code, 0x00, 0x01];
    QuestionAtEncoded(labels, rest);
    OctetAt(rest, 0);
    assert Slice(rest, 2, 4) == [0x01];
    OctetAt([0x01], 0);
    assert Slice([0x01], 0, 1) == [0x01];
    LookupCodes(Join(labels, '.'), code, 1);
    QTypeCodes(code, t);
  }

  /** `b'\x06google\x03com\x00'` */
  const GoogleName: seq<Byte> := [0x06] + GOOGLE + [0x03] + COM + [0x00]

  /** `b'\x0ccodecrafters\x02io\x00'` */
  const CodecraftersName: seq<Byte> := [0x0c] + CODECRAFTERS + [0x02] + IO + [0x00]

  const GOOGLE: seq<Byte> := [0x67, 0x6f, 0x6f, 0x67, 0x6c, 0x65]
  const COM: seq<Byte> := [0x63, 0x6f, 0x6d]
  const CODECRAFTERS: seq<Byte> := [0x63, 0x6f, 0x64, 0x65, 0x63, 0x72, 0x61, 0x66, 0x74, 0x65, 0x72, 0x73]
  const IO: seq<Byte> := [0x69, 0x6f]

  lemma GoogleText()
    ensures "google.com" == "google" + "." + "com"
    ensures Spells("google", GOOGLE) && Spells("com", COM)
  {
  }

  lemma CodecraftersText()
    ensures "codecrafters.io" == "codecrafters" + "." + "io"
    ensures Spells("codecrafters", CODECRAFTERS) && Spells("io", IO)
  {
  }

  /** `Question.encode` on the two names of the unit tests. */
  lemma EncodeVectors()
    ensures NameWire("google.com") == Ok(GoogleName)
    ensures NameWire("codecrafters.io") == Ok(CodecraftersName)
  {
    GoogleText();
    TwoLabelName("google", "com", GOOGLE, COM);
    CodecraftersText();
    TwoLabelName("codecrafters", "io", CODECRAFTERS, IO);
  }

  /** `serialize` on the unit tests' questions: the name, then type A and
      class IN as two words. */
  lemma SerializeVectors()
    ensures Serialize(Question("google.com", A, IN)) == Ok(GoogleName + [0x00, 0x01, 0x00, 0x01])
    ensures Serialize(Question("codecrafters.io", A, IN)) == Ok(CodecraftersName + [0x00, 0x01, 0x00, 0x01])
  {
    EncodeVectors();
    var rest := TypeClassWords(A, IN);
    SerializeOfName(Question("google.com", A, IN), GoogleName, rest);
    SerializeOfName(Question("codecrafters.io", A, IN), CodecraftersName, rest);
  }

  /** `from_bytes` on the unit tests' buffers: a name, then one octet of
      type and two of class, since the reader takes the terminator as the
      type's high octet. */
  lemma FromBytesVectors()
    ensures QuestionAt(GoogleName + [0x01, 0x00, 0x01]) == Ok(Question("google.com", A, IN))
    ensures QuestionAt(CodecraftersName + [0x05, 0x00, 0x01]) == Ok(Question("codecrafters.io", CNAME, IN))
  {
    GoogleFromBytes();
    CodecraftersFromBytes();
  }

  lemma GoogleFromBytes()
    ensures QuestionAt(GoogleName + [0x01, 0x00, 0x01]) == Ok(Question("google.com", A, IN))
  {
    GoogleText();
    TwoLabelQuestion("google", "com", GOOGLE, COM, 0x01, A);
  }

  lemma CodecraftersFromBytes()
    ensures QuestionAt(CodecraftersName + [0x05, 0x00, 0x01]) == Ok(Question("codecrafters.io", CNAME, IN))
  {
    CodecraftersText();
    TwoLabelQuestion("codecrafters", "io", CODECRAFTERS, IO, 0x05, CNAME);
  }
}
