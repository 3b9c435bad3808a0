/** app/dns/encoding.py: domain names as length-prefixed labels ended by a
    0x00 octet (section 3.1 of RFC 1035), character-strings (section 3.3),
    four-octet IPv4 addresses, and the `encode`/`decode` pair that picks
    between them. No decoder here follows compression pointers: an octet of
    0xC0 or more is read as an ordinary label length. */
module Encoding {
  import opened Wire
  import opened Text

  /** A label `encode_domain_name` accepts: ASCII, and short enough for its
      length to fit one octet. The 63-octet limit of RFC 1035 is not enforced. */
  predicate ValidLabel(part: string)
  {
    IsAscii(part) && |part| <= 255
  }

  predicate ValidLabels(labels: seq<string>)
  {
    forall k :: 0 <= k < |labels| ==> ValidLabel(labels[k])
  }

  /** Labels that survive a decode: valid and non-empty, since an empty label
      would be read back as the terminator. */
  predicate DecodableLabels(labels: seq<string>)
  {
    ValidLabels(labels) && forall k :: 0 <= k < |labels| ==> |labels[k]| > 0
  }

  /** One label: `len(ascii).to_bytes(1, 'big') + ascii`. */
  function LabelWire(part: string): Result<seq<Byte>>
  {
    var octets :- EncodeAscii(part);
    if |octets| > 255 then Err(OverflowError) else Ok([|octets|] + octets)
  }

  /** The labels one after another; the first label that fails decides the exception. */
  function LabelsWire(labels: seq<string>): Result<seq<Byte>>
  {
    if labels == [] then Ok([])
    else match LabelWire(labels[0])
      case Err(e) => Err(e)
      case Ok(head) => After(head, LabelsWire(labels[1..]))
  }

  /** What `encode_domain_name` returns: the labels, then a single 0x00. */
  function DomainNameWire(labels: seq<string>): Result<seq<Byte>>
  {
    match LabelsWire(labels)
    case Err(e) => Err(e)
    case Ok(body) => Ok(body + [0])
  }

  /** An empty last label adds its length octet 0x00 and nothing else. */
  lemma {:induction false} LabelsWireEmptyLast(labels: seq<string>)
    requires LabelsWire(labels).Ok?
    ensures LabelsWire(labels + [[]]) == Ok(LabelsWire(labels).value + [0])
  {
    var longer := labels + [[]];
    var empty: string := [];
    assert IsAscii(empty) && AsciiBytes(empty) == [];
    var none: seq<Byte> := [];
    assert EncodeAscii(empty) == Ok(none);
    var zero: seq<Byte> := [0];
    assert [|none|] + none == zero;
    assert LabelWire(empty) == Ok(zero);
    if labels == [] {
      assert longer[0] == empty && longer[1..] == [];
      assert LabelsWire(longer) == After(zero, LabelsWire([]));
      assert zero + none == none + zero == zero;
    } else {
      assert longer[1..] == labels[1..] + [[]];
      LabelsWireEmptyLast(labels[1..]);
      var head := LabelWire(labels[0]).value;
      var tail := LabelsWire(labels[1..]).value;
      assert head + (tail + [0]) == head + tail + [0];
    }
  }

  /** Σ (len(label) + 1) + 1: the size of an encoded name. */
  function WireLength(labels: seq<string>): nat
  {
    if labels == [] then 1 else |labels[0]| + 1 + WireLength(labels[1..])
  }

  /** encode_domain_name, accumulating `res` label by label. */
  method EncodeDomainName(parts: seq<string>) returns (r: Result<seq<Byte>>)
    ensures r == DomainNameWire(parts)
  {
    var res: seq<Byte> := [];
    assert parts[0..] == parts;
    AfterNothing(LabelsWire(parts));
    for i := 0 to |parts|
      invariant LabelsWire(parts) == After(res, LabelsWire(parts[i..]))
    {
      assert parts[i..][1..] == parts[i + 1..];
      var asciiPart := EncodeAscii(parts[i]);
      if asciiPart.Err? {
        return Err(asciiPart.error);
      }
      if |asciiPart.value| > 255 {
        return Err(OverflowError);
      }
      AfterAfter(res, [|asciiPart.value|] + asciiPart.value, LabelsWire(parts[i + 1..]));
      res := res + ([|asciiPart.value|] + asciiPart.value);
    }
    assert parts[|parts|..] == [];
    assert res + [] == res;
    res := res + [0];
    return Ok(res);
  }

  lemma DomainNameWireCons(labels: seq<string>)
    requires |labels| > 0 && ValidLabel(labels[0])
    ensures DomainNameWire(labels) == After([|labels[0]|] + AsciiBytes(labels[0]), DomainNameWire(labels[1..]))
  {
    var head := [|labels[0]|] + AsciiBytes(labels[0]);
    assert LabelWire(labels[0]) == Ok(head);
    var tail := LabelsWire(labels[1..]);
    if tail.Ok? {
      assert head + tail.value + [0] == head + (tail.value + [0]);
    }
  }

  /** No labels: the terminator alone. */
  lemma EmptyNameWire()
    ensures DomainNameWire([]) == Ok([0])
  {
    assert LabelsWire([]) == Ok([]);
    assert [] + [0] == [0];
  }

  /** The layout of an encoded name: it exists exactly when every label is
      ASCII of at most 255 octets; then each label is one length octet and its
      ASCII octets, in order, the whole ends with 0x00, and its length is
      Σ (len(label) + 1) + 1. */
  lemma {:induction false} DomainNameWireLayout(labels: seq<string>)
    ensures DomainNameWire(labels).Ok? <==> ValidLabels(labels)
    ensures DomainNameWire(labels).Ok? ==>
      var w := DomainNameWire(labels).value;
      && |w| == WireLength(labels)
      && w[|w| - 1] == 0
      && (labels != [] ==>
            && w[0] == |labels[0]|
            && w[1..1 + |labels[0]|] == AsciiBytes(labels[0])
            && w[1 + |labels[0]|..] == DomainNameWire(labels[1..]).value)
  {
    if labels != [] {
      DomainNameWireLayout(labels[1..]);
      if ValidLabels(labels) {
        assert ValidLabels(labels[1..]) by {
          forall k | 0 <= k < |labels| - 1 ensures ValidLabel(labels[1..][k]) {
            assert labels[1..][k] == labels[k + 1];
          }
        }
        DomainNameWireCons(labels);
        LabelThen(labels[0], DomainNameWire(labels[1..]).value);
      } else if ValidLabel(labels[0]) {
        var k :| 0 <= k < |labels| && !ValidLabel(labels[k]);
        assert !ValidLabel(labels[1..][k - 1]);
      }
    }
  }

  /** A label written before the octets that follow it. */
  lemma LabelThen(part: string, w: seq<Byte>)
    requires ValidLabel(part) && w != []
    ensures var v := [|part|] + AsciiBytes(part) + w;
      && |v| == |part| + 1 + |w|
      && v[|v| - 1] == w[|w| - 1]
      && v[0] == |part|
      && v[1..1 + |part|] == AsciiBytes(part)
      && v[1 + |part|..] == w
  {
  }

  /** Each label followed by a '.', as the decoding loop accumulates them. */
  function Dotted(labels: seq<string>): string
  {
    if labels == [] then [] else labels[0] + "." + Dotted(labels[1..])
  }

  /** `qname[0:-1]` when the last character is '.'. */
  function StripDot(s: string): string
    requires s != []
  {
    if s[|s| - 1] == '.' then s[..|s| - 1] else s
  }

  lemma {:induction false} StripDotted(labels: seq<string>)
    requires labels != []
    ensures Dotted(labels) != [] && StripDot(Dotted(labels)) == Join(labels, '.')
  {
    if |labels| == 1 {
      assert Dotted(labels[1..]) == [];
    } else {
      StripDotted(labels[1..]);
      var rest := Dotted(labels[1..]);
      assert Dotted(labels) == labels[0] + "." + rest;
      assert Dotted(labels)[..|Dotted(labels)| - 1] == labels[0] + "." + rest[..|rest| - 1];
    }
  }

  /** The label walk shared by the decoders: from index i, read a length
      octet and that many octets as text followed by '.', until a 0x00 octet
      or the end of the buffer. Gives the accumulated text and the index where
      it stopped: the terminator's, or one at or past the end (a truncated
      label moves the index past the end). */
  function LabelWalk(data: seq<Byte>, i: nat): Result<(string, nat)>
    decreases |data| - i
  {
    if |data| <= i || data[i] == 0 then Ok(([], i))
    else
      var next := i + 1 + data[i] as int;
      match DecodeUtf8(Slice(data, i + 1, next))
      case Err(e) => Err(e)
      case Ok(text) => Behind(text + ".", LabelWalk(data, next))
  }

  /** A walk's outcome with `text` in front of its accumulated text. */
  function Behind(text: string, walk: Result<(string, nat)>): Result<(string, nat)>
  {
    if walk.Ok? then Ok((text + walk.value.0, walk.value.1)) else walk
  }

  lemma BehindNothing(walk: Result<(string, nat)>)
    ensures Behind([], walk) == walk
  {
    if walk.Ok? {
      assert [] + walk.value.0 == walk.value.0;
    }
  }

  lemma BehindBehind(a: string, b: string, walk: Result<(string, nat)>)
    ensures Behind(a, Behind(b, walk)) == Behind(a + b, walk)
  {
    if walk.Ok? {
      assert a + (b + walk.value.0) == (a + b) + walk.value.0;
    }
  }

  /** One step of the walk: a label that decodes puts its text and '.' in
      front of the rest of the walk ... */
  lemma WalkStep(data: seq<Byte>, i: nat, next: nat, text: Result<string>)
    requires i < |data| && data[i] != 0 && next == i + 1 + data[i] as int
    requires DecodeUtf8(Slice(data, i + 1, next)) == text && text.Ok?
    ensures LabelWalk(data, i) == Behind(text.value + ".", LabelWalk(data, next))
  {
  }

  /** ... and one that does not ends the walk with its exception. */
  lemma WalkStepFails(data: seq<Byte>, i: nat, next: nat, e: Error)
    requires i < |data| && data[i] != 0 && next == i + 1 + data[i] as int
    requires DecodeUtf8(Slice(data, i + 1, next)) == Err(e)
    ensures LabelWalk(data, i) == Err(e)
  {
  }

  /** The decoder's loop invariant is kept by reading one label. */
  lemma WalkAdvance(data: seq<Byte>, i: nat, qname: string, text: Result<string>, next: nat, qname': string)
    requires i < |data| && data[i] != 0 && next == i + 1 + data[i] as int
    requires Behind(qname, LabelWalk(data, i)) == LabelWalk(data, 0)
    requires DecodeUtf8(Slice(data, i + 1, next)) == text && text.Ok?
    requires qname' == qname + text.value + "."
    ensures Behind(qname', LabelWalk(data, next)) == LabelWalk(data, 0)
  {
    WalkStep(data, i, next, text);
    BehindBehind(qname, text.value + ".", LabelWalk(data, next));
    assert qname + text.value + "." == qname + (text.value + ".");
  }

  /** A walk that fails partway makes the whole decode fail the same way. */
  lemma WalkFailed(data: seq<Byte>, i: nat, qname: string, next: nat, e: Error)
    requires i < |data| && data[i] != 0 && next == i + 1 + data[i] as int
    requires Behind(qname, LabelWalk(data, i)) == LabelWalk(data, 0)
    requires DecodeUtf8(Slice(data, i + 1, next)) == Err(e)
    ensures LabelWalk(data, 0) == Err(e)
    ensures DomainNameAt(data) == Err(e)
  {
    WalkStepFails(data, i, next, e);
  }

  /** A walk that has reached a terminator (or the end) has accumulated all of its text. */
  lemma WalkStopped(data: seq<Byte>, i: nat, qname: string)
    requires Behind(qname, LabelWalk(data, i)) == LabelWalk(data, 0)
    requires |data| <= i || data[i] == 0
    ensures LabelWalk(data, 0).Ok?
    ensures LabelWalk(data, 0).value.0 == qname && LabelWalk(data, 0).value.1 == i
  {
    assert LabelWalk(data, i) == Ok(([], i));
    assert qname + [] == qname;
  }

  /** A walk ends on a 0x00 octet or at or past the end of the buffer. */
  lemma {:induction false} WalkEnds(data: seq<Byte>, i: nat)
    requires LabelWalk(data, i).Ok?
    ensures var stop := LabelWalk(data, i).value.1;
      stop >= i && (stop >= |data| || data[stop] == 0)
    decreases |data| - i
  {
    if i < |data| && data[i] != 0 {
      var next := i + 1 + data[i] as int;
      var text := DecodeUtf8(Slice(data, i + 1, next));
      WalkStep(data, i, next, text);
      WalkEnds(data, next);
    }
  }

  /** A walk that read at least one label moved at least two octets: the
      length octet, which is not 0, and the label it announces. */
  lemma {:induction false} WalkAdvances(data: seq<Byte>, i: nat)
    requires LabelWalk(data, i).Ok? && LabelWalk(data, i).value.0 != []
    ensures LabelWalk(data, i).value.1 >= i + 2
    decreases |data| - i
  {
    if i < |data| && data[i] != 0 {
      var next := i + 1 + data[i] as int;
      var text := DecodeUtf8(Slice(data, i + 1, next));
      WalkStep(data, i, next, text);
      WalkEnds(data, next);
    }
  }

  lemma NameOfWalk(data: seq<Byte>, i: nat, qname: string)
    requires LabelWalk(data, 0).Ok?
    requires LabelWalk(data, 0).value.0 == qname && LabelWalk(data, 0).value.1 == i
    ensures DomainNameAt(data)
         == if qname == [] then Err(IndexError)
            else Ok((StripDot(qname), if i < |data| then i + 1 else i))
  {
    var r := DomainNameAt(data);
    if qname != [] {
      assert r.Ok? && r.value.0 == StripDot(qname) && r.value.1 == if i < |data| then i + 1 else i;
      assert r.value == (StripDot(qname), if i < |data| then i + 1 else i);
    }
  }

  /** What `decode_domain_name` returns: the labels joined by '.', and the
      octets consumed, the terminator included. IndexError when no label was
      read (`qname[-1]` of an empty name). */
  function DomainNameAt(data: seq<Byte>): Result<(string, nat)>
  {
    match LabelWalk(data, 0)
    case Err(e) => Err(e)
    case Ok(walk) =>
      var consumed := if walk.1 < |data| then walk.1 + 1 else walk.1;
      if walk.0 == [] then Err(IndexError) else Ok((StripDot(walk.0), consumed))
  }

  /** The text a walk accumulates is ASCII: decoded labels and dots. */
  lemma {:induction false} WalkAscii(data: seq<Byte>, i: nat)
    requires LabelWalk(data, i).Ok?
    ensures IsAscii(LabelWalk(data, i).value.0)
    decreases |data| - i
  {
    if i < |data| && data[i] != 0 {
      var next := i + 1 + data[i] as int;
      var text := DecodeUtf8(Slice(data, i + 1, next));
      WalkStep(data, i, next, text);
      WalkAscii(data, next);
      var t := text.value + "." + LabelWalk(data, next).value.0;
      assert LabelWalk(data, i).value.0 == t;
      forall k | 0 <= k < |t| ensures t[k] as int < 128 {
        if k > |text.value| {
          assert t[k] == LabelWalk(data, next).value.0[k - |text.value| - 1];
        }
      }
    }
  }

  /** A decoded name is ASCII. */
  lemma NameAscii(data: seq<Byte>)
    requires DomainNameAt(data).Ok?
    ensures IsAscii(DomainNameAt(data).value.0)
  {
    WalkAscii(data, 0);
  }

  /** A decoded name always consumed at least two octets. */
  lemma NameConsumes(data: seq<Byte>)
    requires DomainNameAt(data).Ok?
    ensures DomainNameAt(data).value.1 >= 2
  {
    WalkAdvances(data, 0);
  }

  /** The loop `decode_domain_name` and `Question.from_bytes` both run:
      from index 0, read a length octet and that many octets of text, append
      the text and '.' to `qname`, until a 0x00 octet or the end of the
      buffer. Each label's text is `data[i + 1:end]` with `end` the index
      after it. */
  method WalkLabels(data: seq<Byte>) returns (r: Result<(string, nat)>)
    ensures r == LabelWalk(data, 0)
  {
    var i: nat := 0;
    var qname: string := [];
    BehindNothing(LabelWalk(data, 0));
    while i < |data| && data[i] != 0
      invariant Behind(qname, LabelWalk(data, i)) == LabelWalk(data, 0)
      decreases |data| - i
    {
      var length: nat := data[i];
      var end := i + 1 + length;
      var text := DecodeUtf8(Slice(data, i + 1, end));
      if text.Err? {
        WalkFailed(data, i, qname, end, text.error);
        return Err(text.error);
      }
      WalkAdvance(data, i, qname, text, end, qname + text.value + ".");
      qname := qname + text.value + ".";
      i := end;
    }
    WalkStopped(data, i, qname);
    r := Ok((qname, i));
  }

  /** decode_domain_name: the label walk, then a step over the terminator
      (the source's loop breaks after stepping over it) and the trailing '.'
      removed. */
  method DecodeDomainName(data: seq<Byte>) returns (r: Result<(string, nat)>)
    ensures r == DomainNameAt(data)
  {
    var walk := WalkLabels(data);
    if walk.Err? {
      return Err(walk.error);
    }
    var qname := walk.value.0;
    var i := walk.value.1;
    NameOfWalk(data, i, qname);
    if i < |data| {
      i := i + 1;
    }
    if qname == [] {
      return Err(IndexError);
    }
    if qname[|qname| - 1] == '.' {
      qname := qname[..|qname| - 1];
    }
    r := Ok((qname, i));
  }

  /** Reading one encoded label puts its text and '.' in front of the rest of the walk. */
  lemma WalkLabel(data: seq<Byte>, i: nat, part: string, next: nat, text: string, stop: nat)
    requires i < |data| && data[i] == |part| > 0 && IsAscii(part)
    requires next == i + 1 + |part|
    requires Slice(data, i + 1, next) == AsciiBytes(part)
    requires LabelWalk(data, next).Ok?
    requires LabelWalk(data, next).value.0 == text
    requires LabelWalk(data, next).value.1 == stop
    ensures LabelWalk(data, i).Ok?
    ensures LabelWalk(data, i).value.0 == part + "." + text
    ensures LabelWalk(data, i).value.1 == stop
  {
    AsciiRoundTrip(part, []);
    WalkStep(data, i, next, Ok(part));
  }

  /** Where an encoded name sits in a buffer: its first label's length octet
      and ASCII octets, then the encoding of the remaining labels. */
  lemma EncodedNameAt(data: seq<Byte>, i: nat, labels: seq<string>)
    requires labels != [] && ValidLabels(labels)
    requires DomainNameWire(labels).Ok?
    requires i + |DomainNameWire(labels).value| <= |data|
    requires data[i..i + |DomainNameWire(labels).value|] == DomainNameWire(labels).value
    ensures DomainNameWire(labels[1..]).Ok?
    ensures var next := i + 1 + |labels[0]|;
      var w' := DomainNameWire(labels[1..]).value;
      && |DomainNameWire(labels).value| == 1 + |labels[0]| + |w'|
      && data[i] == |labels[0]|
      && Slice(data, i + 1, next) == AsciiBytes(labels[0])
      && data[next..next + |w'|] == w'
  {
    var l := labels[0];
    assert ValidLabel(l);
    DomainNameWireCons(labels);
    var w := DomainNameWire(labels).value;
    var w' := DomainNameWire(labels[1..]).value;
    var head := [|l|] + AsciiBytes(l);
    assert w == head + w';
    Segment(data, i, i + |w|, head, w');
    assert head[1..] == AsciiBytes(l);
  }

  /** Walking an encoded name reads every label followed by '.' and stops at
      its terminator. */
  lemma {:induction false} WalkEncodedName(data: seq<Byte>, i: nat, labels: seq<string>)
    requires DecodableLabels(labels)
    requires DomainNameWire(labels).Ok?
    requires i + |DomainNameWire(labels).value| <= |data|
    requires data[i..i + |DomainNameWire(labels).value|] == DomainNameWire(labels).value
    ensures LabelWalk(data, i).Ok?
    ensures LabelWalk(data, i).value.0 == Dotted(labels)
    ensures LabelWalk(data, i).value.1 == i + |DomainNameWire(labels).value| - 1
    decreases |labels|
  {
    var w := DomainNameWire(labels).value;
    if labels == [] {
      assert data[i] == w[0] == 0;
    } else {
      var l := labels[0];
      EncodedNameAt(data, i, labels);
      assert DecodableLabels(labels[1..]) by {
        forall k | 0 <= k < |labels| - 1 ensures ValidLabel(labels[1..][k]) && |labels[1..][k]| > 0 {
          assert labels[1..][k] == labels[k + 1];
        }
      }
      var w' := DomainNameWire(labels[1..]).value;
      var next := i + 1 + |l|;
      WalkEncodedName(data, next, labels[1..]);
      WalkLabel(data, i, l, next, Dotted(labels[1..]), next + |w'| - 1);
    }
  }

  /** Round trip: decoding an encoded name, whatever follows it, gives the
      labels joined by '.' and consumes exactly the encoding. */
  lemma DomainNameRoundTrip(labels: seq<string>, rest: seq<Byte>)
    requires labels != [] && DecodableLabels(labels)
    ensures DomainNameWire(labels).Ok?
    ensures DomainNameAt(DomainNameWire(labels).value + rest)
         == Ok((Join(labels, '.'), |DomainNameWire(labels).value|))
  {
    DomainNameWireLayout(labels);
    var w := DomainNameWire(labels).value;
    var data := w + rest;
    assert data[0..|w|] == w;
    WalkEncodedName(data, 0, labels);
    StripDotted(labels);
    NameOfWalk(data, |w| - 1, Dotted(labels));
    var r := DomainNameAt(data);
    assert r.Ok? && r.value.0 == Join(labels, '.') && r.value.1 == |w|;
    assert r.value == (Join(labels, '.'), |w|);
  }

  /** An empty name fails: an empty buffer, or a buffer that starts with 0x00. */
  lemma EmptyNameFails(data: seq<Byte>)
    requires data == [] || data[0] == 0
    ensures DomainNameAt(data) == Err(IndexError)
  {
  }

  /** What `encode_character_string` returns: length octet, ASCII octets and
      an extra 0x00 that section 3.3 of RFC 1035 does not have. */
  function CharacterStringWire(value: string): Result<seq<Byte>>
  {
    var octets :- EncodeAscii(value);
    if |octets| > 255 then Err(OverflowError) else Ok([|octets|] + octets + [0])
  }

  /** What `decode_character_string` returns: `data[1:length]` as text, one
      octet fewer than the length octet announces, and length + 1 consumed. */
  function CharacterStringAt(data: seq<Byte>): Result<(string, nat)>
  {
    var length := BigEndian(Slice(data, 0, 1));
    var text :- DecodeUtf8(Slice(data, 1, length));
    Ok((text, length + 1))
  }

  /** The character-string codecs are not inverse: the encoding is len + 2
      octets long, and decoding it drops the last character and reports
      len + 1 octets consumed, so the extra 0x00 is left over. */
  lemma CharacterStringNotRoundTrip(value: string, rest: seq<Byte>)
    requires IsAscii(value) && |value| <= 255
    ensures CharacterStringWire(value).Ok?
    ensures |CharacterStringWire(value).value| == |value| + 2
    ensures CharacterStringAt(CharacterStringWire(value).value + rest)
         == Ok((if value == [] then [] else value[..|value| - 1], |value| + 1))
  {
    var w := CharacterStringWire(value).value;
    var data := w + rest;
    OctetAt(data, 0);
    if value != [] {
      assert Slice(data, 1, |value|) == AsciiBytes(value[..|value| - 1]);
      AsciiRoundTrip(value[..|value| - 1], []);
    }
  }

  /** A character-string read always consumes at least one octet. */
  lemma CharacterStringAdvances(data: seq<Byte>)
    requires data != []
    ensures CharacterStringAt(data).Ok? ==> CharacterStringAt(data).value.1 == data[0] as int + 1 >= 1
  {
    OctetAt(data, 0);
  }

  /** One component of a dotted address: `int(part).to_bytes(1, 'big')`. */
  function OctetOf(part: string): Result<Byte>
  {
    var n :- ParseInt(part);
    if 0 <= n < 256 then Ok(n) else Err(OverflowError)
  }

  /** What `encode_ip` returns: one octet per component, the first failing
      component deciding the exception. */
  function IpWire(parts: seq<string>): Result<seq<Byte>>
  {
    if parts == [] then Ok([])
    else match OctetOf(parts[0])
      case Err(e) => Err(e)
      case Ok(octet) => After([octet], IpWire(parts[1..]))
  }

  /** encode_ip, accumulating one octet per component. */
  method EncodeIp(parts: seq<string>) returns (r: Result<seq<Byte>>)
    ensures r == IpWire(parts)
  {
    var res: seq<Byte> := [];
    assert parts[0..] == parts;
    AfterNothing(IpWire(parts));
    for i := 0 to |parts|
      invariant IpWire(parts) == After(res, IpWire(parts[i..]))
    {
      assert parts[i..][1..] == parts[i + 1..];
      var n := ParseInt(parts[i]);
      if n.Err? {
        return Err(n.error);
      }
      if !(0 <= n.value < 256) {
        return Err(OverflowError);
      }
      AfterAfter(res, [n.value], IpWire(parts[i + 1..]));
      res := res + [n.value];
    }
    assert parts[|parts|..] == [];
    assert res + [] == res;
    return Ok(res);
  }

  /** encode_ip succeeds exactly when every component is an integer in
      0..255, and then emits exactly that integer for each component. */
  lemma {:induction false} IpWireLayout(parts: seq<string>)
    ensures IpWire(parts).Ok? <==> forall k :: 0 <= k < |parts| ==> OctetOf(parts[k]).Ok?
    ensures IpWire(parts).Ok? ==>
      && |IpWire(parts).value| == |parts|
      && forall k :: 0 <= k < |parts| ==> ParseInt(parts[k]) == Ok(IpWire(parts).value[k])
  {
    if parts != [] {
      IpWireLayout(parts[1..]);
      if !OctetOf(parts[0]).Ok? {
        assert !OctetOf(parts[0]).Ok?;
      } else if IpWire(parts[1..]).Ok? {
        var w := IpWire(parts).value;
        forall k | 0 <= k < |parts| ensures ParseInt(parts[k]) == Ok(w[k]) {
          if k > 0 {
            assert parts[k] == parts[1..][k - 1];
          }
        }
      } else {
        var k :| 0 <= k < |parts| - 1 && !OctetOf(parts[1..][k]).Ok?;
        assert !OctetOf(parts[k + 1]).Ok?;
      }
    }
  }

  /** When some component is not an integer and every integer component is
      in 0..255, encode_ip raises ValueError (which `encode` catches). */
  lemma {:induction false} IpWireValueError(parts: seq<string>)
    requires forall k :: 0 <= k < |parts| ==> ParseInt(parts[k]).Ok? ==> 0 <= ParseInt(parts[k]).value < 256
    requires exists k :: 0 <= k < |parts| && ParseInt(parts[k]).Err?
    ensures IpWire(parts) == Err(ValueError)
  {
    var j :| 0 <= j < |parts| && ParseInt(parts[j]).Err?;
    if ParseInt(parts[0]).Ok? {
      assert j > 0 && ParseInt(parts[1..][j - 1]).Err?;
      forall k | 0 <= k < |parts| - 1
        ensures ParseInt(parts[1..][k]).Ok? ==> 0 <= ParseInt(parts[1..][k]).value < 256
      {
        assert parts[1..][k] == parts[k + 1];
      }
      IpWireValueError(parts[1..]);
    }
  }

  /** When every component is an integer and one is outside 0..255,
      encode_ip raises OverflowError, which `encode` does not catch. */
  lemma {:induction false} IpWireOverflow(parts: seq<string>)
    requires forall k :: 0 <= k < |parts| ==> ParseInt(parts[k]).Ok?
    requires exists k :: 0 <= k < |parts| && !(0 <= ParseInt(parts[k]).value < 256)
    ensures IpWire(parts) == Err(OverflowError)
  {
    var j :| 0 <= j < |parts| && !(0 <= ParseInt(parts[j]).value < 256);
    if 0 <= ParseInt(parts[0]).value < 256 {
      assert j > 0 && !(0 <= ParseInt(parts[1..][j - 1]).value < 256);
      forall k | 0 <= k < |parts| - 1 ensures ParseInt(parts[1..][k]).Ok? {
        assert parts[1..][k] == parts[k + 1];
      }
      IpWireOverflow(parts[1..]);
    }
  }

  /** When encode_ip raises, the exception is the one of the first component
      that is not an octet, whatever the later components hold. */
  lemma {:induction false} IpFirstFailure(parts: seq<string>) returns (k: nat)
    requires IpWire(parts).Err?
    ensures k < |parts| && OctetOf(parts[k]).Err?
    ensures forall j :: 0 <= j < k ==> OctetOf(parts[j]).Ok?
    ensures IpWire(parts).error == OctetOf(parts[k]).error
  {
    if OctetOf(parts[0]).Err? {
      k := 0;
    } else {
      var j := IpFirstFailure(parts[1..]);
      k := j + 1;
      assert parts[1..][j] == parts[k];
      forall i | 0 <= i < k ensures OctetOf(parts[i]).Ok? {
        if i > 0 {
          assert parts[1..][i - 1] == parts[i];
        }
      }
    }
  }

  /** Mixed components: in "1.300.x" the out-of-range 300 comes first and
      raises OverflowError; in "1.x.300" the non-integer x comes first and
      raises ValueError. */
  lemma IpMixedVectors()
    ensures IpWire(["1", "300", "x"]) == Err(OverflowError)
    ensures IpWire(["1", "x", "300"]) == Err(ValueError)
  {
    var one := ["1", "300", "x"];
    var two := ["1", "x", "300"];
    assert DigitsValue("300") == 300 by {
      assert "300"[..2] == "30" && "30"[..1] == "3" && "3"[..0] == [];
    }
    assert ParseInt("1") == Ok(1) by {
      assert "1"[..0] == [];
    }
    assert ParseInt("x") == Err(ValueError);
    assert one[1..] == ["300", "x"] && two[1..] == ["x", "300"];
  }

  /** `encode` rewrites '@', '-' and '+' to '.' before splitting. */
  function Rewritten(value: string): string
  {
    Replace(Replace(Replace(value, '@', '.'), '-', '.'), '+', '.')
  }

  /** What `encode` returns: the dotted-address form when the first piece is
      an integer and encode_ip does not raise ValueError; the label form
      otherwise. Exceptions other than ValueError escape. */
  function Encode(value: string): Result<seq<Byte>>
  {
    var parts := Split(Rewritten(value), '.');
    if ParseInt(parts[0]).Err? then
      DomainNameWire(parts)
    else
      var ip := IpWire(parts);
      if ip.Err? && ip.error == ValueError then DomainNameWire(parts) else ip
  }

  predicate AllOctets(parts: seq<string>)
  {
    forall k :: 0 <= k < |parts| ==> OctetOf(parts[k]).Ok?
  }

  /** `encode` gives the address form, one octet per piece, when every piece
      is an integer in 0..255. */
  lemma EncodeAddressForm(value: string)
    requires AllOctets(Split(Rewritten(value), '.'))
    ensures Encode(value) == IpWire(Split(Rewritten(value), '.'))
    ensures Encode(value).Ok? && |Encode(value).value| == |Split(Rewritten(value), '.')|
  {
    var parts := Split(Rewritten(value), '.');
    IpWireLayout(parts);
    assert OctetOf(parts[0]).Ok?;
  }

  /** `encode` gives the label form when some piece is not an integer and no
      integer piece is outside 0..255 (in particular when the first piece is
      not an integer). */
  lemma EncodeLabelForm(value: string)
    requires var parts := Split(Rewritten(value), '.');
      && (forall k :: 0 <= k < |parts| ==> ParseInt(parts[k]).Ok? ==> 0 <= ParseInt(parts[k]).value < 256)
      && (exists k :: 0 <= k < |parts| && ParseInt(parts[k]).Err?)
    ensures Encode(value) == DomainNameWire(Split(Rewritten(value), '.'))
  {
    var parts := Split(Rewritten(value), '.');
    if ParseInt(parts[0]).Ok? {
      IpWireValueError(parts);
    }
  }

  /** `encode` raises OverflowError when every piece is an integer and one is
      outside 0..255. */
  lemma EncodeOverflow(value: string)
    requires var parts := Split(Rewritten(value), '.');
      && (forall k :: 0 <= k < |parts| ==> ParseInt(parts[k]).Ok?)
      && (exists k :: 0 <= k < |parts| && !(0 <= ParseInt(parts[k]).value < 256))
    ensures Encode(value) == Err(OverflowError)
  {
    IpWireOverflow(Split(Rewritten(value), '.'));
  }

  lemma HyphenPieces()
    ensures Split(Rewritten("a-b"), '.') == ["a", "b"]
  {
    assert Rewritten("a-b") == "a.b";
    assert "a.b"[1..] == ".b" && ".b"[1..] == "b" && "b"[1..] == "";
    assert Split("b", '.') == ["b"];
    assert Split(".b", '.') == ["", "b"];
    assert ['a'] + "" == "a";
  }

  lemma TwoLabelsWire()
    ensures DomainNameWire(["a", "b"]) == Ok([1, 'a' as int, 1, 'b' as int, 0])
  {
    assert IsAscii("a") && IsAscii("b");
    assert AsciiBytes("a") == ['a' as int];
    assert AsciiBytes("b") == ['b' as int];
    assert EncodeAscii("a") == Ok(['a' as int]);
    assert EncodeAscii("b") == Ok(['b' as int]);
    assert LabelWire("a") == Ok([1, 'a' as int]) by {
      assert [1] + ['a' as int] == [1, 'a' as int];
    }
    assert LabelWire("b") == Ok([1, 'b' as int]) by {
      assert [1] + ['b' as int] == [1, 'b' as int];
    }
    assert ["a", "b"][1..] == ["b"] && ["b"][1..] == [];
    assert LabelsWire(["b"]) == Ok([1, 'b' as int]) by {
      assert [1, 'b' as int] + [] == [1, 'b' as int];
    }
    assert LabelsWire(["a", "b"]) == Ok([1, 'a' as int, 1, 'b' as int]) by {
      assert [1, 'a' as int] + [1, 'b' as int] == [1, 'a' as int, 1, 'b' as int];
    }
    assert [1, 'a' as int, 1, 'b' as int] + [0] == [1, 'a' as int, 1, 'b' as int, 0];
  }

  /** '-' separates labels just as '.' does: a hyphenated label becomes two. */
  lemma EncodeHyphen()
    ensures Encode("a-b") == DomainNameWire(["a", "b"])
    ensures Encode("a-b") == Ok([1, 'a' as int, 1, 'b' as int, 0])
  {
    HyphenPieces();
    assert ParseInt("a").Err?;
    TwoLabelsWire();
  }

  /** The text `decode_ip` returns: four decimal numbers joined by '.'. */
  function DottedQuad(a: nat, b: nat, c: nat, d: nat): string
  {
    Join([Decimal(a), Decimal(b), Decimal(c), Decimal(d)], '.')
  }

  /** What `decode_ip` returns: octets 0..3 as "a.b.c.d" (a missing octet
      reads as 0), and 4 consumed, always. */
  function DecodeIp(data: seq<Byte>): (string, nat)
  {
    (DottedQuad(BigEndian(Slice(data, 0, 1)), BigEndian(Slice(data, 1, 2)),
                BigEndian(Slice(data, 2, 3)), BigEndian(Slice(data, 3, 4))),
     4)
  }

  /** The four pieces of a dotted quad come back out of `encode`'s
      rewriting and splitting. */
  lemma DottedQuadPieces(a: nat, b: nat, c: nat, d: nat)
    ensures Split(Rewritten(DottedQuad(a, b, c, d)), '.') == [Decimal(a), Decimal(b), Decimal(c), Decimal(d)]
  {
    var pieces := [Decimal(a), Decimal(b), Decimal(c), Decimal(d)];
    forall k | 0 <= k < 4
      ensures '.' !in pieces[k] && '@' !in pieces[k] && '-' !in pieces[k] && '+' !in pieces[k]
    {
      assert AllDigits(pieces[k]);
    }
    NoRewrite(pieces);
    SplitJoin(pieces, '.');
  }

  /** The decimal renderings of some octets. */
  function Decimals(octets: seq<Byte>): (r: seq<string>)
    ensures |r| == |octets| && forall k :: 0 <= k < |octets| ==> r[k] == Decimal(octets[k])
  {
    if octets == [] then [] else [Decimal(octets[0])] + Decimals(octets[1..])
  }

  /** encode_ip reads decimal renderings back to the octets they render. */
  lemma {:induction false} IpWireDecimals(octets: seq<Byte>)
    ensures IpWire(Decimals(octets)) == Ok(octets)
  {
    if octets != [] {
      var parts := Decimals(octets);
      ParseDecimal(octets[0]);
      assert OctetOf(parts[0]) == Ok(octets[0]);
      assert parts[1..] == Decimals(octets[1..]);
      IpWireDecimals(octets[1..]);
      assert [octets[0]] + octets[1..] == octets;
    }
  }

  /** A decoded address encodes back to the four octets it came from. */
  lemma AddressRoundTrip(data: seq<Byte>)
    requires |data| >= 4
    ensures Encode(DecodeIp(data).0) == Ok(data[..4])
  {
    OctetAt(data, 0);
    OctetAt(data, 1);
    OctetAt(data, 2);
    OctetAt(data, 3);
    var octets := data[..4];
    var parts := Decimals(octets);
    assert parts == [Decimal(data[0]), Decimal(data[1]), Decimal(data[2]), Decimal(data[3])];
    DottedQuadPieces(data[0], data[1], data[2], data[3]);
    assert Split(Rewritten(DecodeIp(data).0), '.') == parts;
    IpWireDecimals(octets);
    ParseDecimal(data[0]);
    assert ParseInt(parts[0]).Ok?;
  }

  /** A name whose labels are decodable, free of the characters `encode`
      rewrites, and whose first label is not an integer, takes the label form. */
  predicate PlainName(labels: seq<string>)
  {
    && labels != []
    && DecodableLabels(labels)
    && (forall k :: 0 <= k < |labels| ==>
          '.' !in labels[k] && '@' !in labels[k] && '-' !in labels[k] && '+' !in labels[k])
    && ParseInt(labels[0]).Err?
  }

  /** Such a name is encoded as its labels and decodes back to itself. */
  lemma NameRoundTrip(labels: seq<string>, rest: seq<Byte>)
    requires PlainName(labels)
    ensures Encode(Join(labels, '.')) == DomainNameWire(labels)
    ensures Encode(Join(labels, '.')).Ok?
    ensures DomainNameAt(Encode(Join(labels, '.')).value + rest)
         == Ok((Join(labels, '.'), |DomainNameWire(labels).value|))
  {
    var name := Join(labels, '.');
    NoRewrite(labels);
    SplitJoin(labels, '.');
    DomainNameRoundTrip(labels, rest);
  }

  lemma {:induction false} NoRewrite(labels: seq<string>)
    requires forall k :: 0 <= k < |labels| ==> '@' !in labels[k] && '-' !in labels[k] && '+' !in labels[k]
    ensures Rewritten(Join(labels, '.')) == Join(labels, '.')
  {
    if |labels| > 1 {
      NoRewrite(labels[1..]);
    }
  }

  /** What `decode` returns. Its test `data[-1] == b'\x00'` compares an int
      with a bytes object and is never true, so it always reads a domain name
      (after the IndexError of `data[-1]` on an empty buffer). */
  function Decode(data: seq<Byte>): Result<(string, nat)>
  {
    if data == [] then Err(IndexError) else DomainNameAt(data)
  }

  /** `decode` is `decode_domain_name`, the empty buffer included. */
  lemma DecodeReadsName(data: seq<Byte>)
    ensures Decode(data) == DomainNameAt(data)
  {
  }
}
