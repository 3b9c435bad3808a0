/** The message of app/dns/message.py: an optional header and an optional
    list of questions. `serialize` first overwrites the header's question
    count with the number of questions, then writes the 12 header octets and
    each question's octets after them, in list order. */
module MessageCodec {
  import opened Wire
  import H = DnsHeader
  import Q = QuestionCodec

  /** The questions serialized one after the other; the first question that
      fails to serialize decides the error. */
  function QuestionsWire(qs: seq<Q.Question>): Result<seq<Byte>>
  {
    if qs == [] then Ok([])
    else
      match Q.Serialize(qs[0])
      case Err(e) => Err(e)
      case Ok(w) => After(w, QuestionsWire(qs[1..]))
  }

  /** The header as `serialize` leaves it: its question count replaced when
      both parts are present. */
  function Counted(header: Option<H.Header>, questions: Option<seq<Q.Question>>): Option<H.Header>
  {
    if header.Some? && questions.Some? then Some(header.value.(qdcount := |questions.value|)) else header
  }

  /** What `serialize` returns. `len(None)` raises TypeError before the
      header is touched; a missing header raises AttributeError on the
      assignment; then the header is packed and the questions follow. */
  function MessageWire(header: Option<H.Header>, questions: Option<seq<Q.Question>>): Result<seq<Byte>>
  {
    match questions
    case None => Err(TypeError)
    case Some(qs) =>
      match header
      case None => Err(AttributeError)
      case Some(h) =>
        match H.Serialize(h.(qdcount := |qs|))
        case Err(e) => Err(e)
        case Ok(w) => After(w, QuestionsWire(qs))
  }

  class Message {
    var header: Option<H.Header>
    var questions: Option<seq<Q.Question>>

    /** `Message(header=.., questions=..)`: `None` stands for an omitted
        argument. */
    constructor (header: Option<H.Header>, questions: Option<seq<Q.Question>>)
      ensures this.header == header && this.questions == questions
    {
      this.header := header;
      this.questions := questions;
    }

    /** `Message.serialize`: the count is stored before packing, so it
        stays updated even when packing then fails. */
    method Serialize() returns (r: Result<seq<Byte>>)
      modifies this
      ensures questions == old(questions)
      ensures header == Counted(old(header), old(questions))
      ensures r == MessageWire(old(header), old(questions))
    {
      if questions.None? {
        return Err(TypeError);
      }
      var qs := questions.value;
      if header.None? {
        return Err(AttributeError);
      }
      header := Some(header.value.(qdcount := |qs|));
      var packed := H.Serialize(header.value);
      if packed.Err? {
        return Err(packed.error);
      }
      var res := packed.value;
      assert qs[0..] == qs;
      for i := 0 to |qs|
        invariant questions == old(questions) && header == Counted(old(header), old(questions))
        invariant After(res, QuestionsWire(qs[i..])) == After(packed.value, QuestionsWire(qs))
      {
        assert qs[i..][0] == qs[i] && qs[i..][1..] == qs[i + 1..];
        var w := Q.Serialize(qs[i]);
        if w.Err? {
          return Err(w.error);
        }
        AfterAfter(res, w.value, QuestionsWire(qs[i + 1..]));
        res := res + w.value;
      }
      assert qs[|qs|..] == [];
      assert res + [] == res;
      return Ok(res);
    }
  }

  /** Every question serializes. */
  predicate AllSerialize(qs: seq<Q.Question>)
  {
    forall k :: 0 <= k < |qs| ==> Q.Serialize(qs[k]).Ok?
  }

  /** Each question's octets, in list order. */
  function Serialized(qs: seq<Q.Question>): (ws: seq<seq<Byte>>)
    requires AllSerialize(qs)
    ensures |ws| == |qs| && forall k :: 0 <= k < |qs| ==> Q.Serialize(qs[k]) == Ok(ws[k])
  {
    seq(|qs|, k requires 0 <= k < |qs| => Q.Serialize(qs[k]).value)
  }

  /** The questions serialize exactly when each one does, and then to their
      octets one after the other. */
  lemma {:induction false} QuestionsConcat(qs: seq<Q.Question>)
    ensures QuestionsWire(qs).Ok? <==> AllSerialize(qs)
    ensures QuestionsWire(qs).Ok? ==> QuestionsWire(qs).value == Flatten(Serialized(qs))
  {
    if qs != [] {
      QuestionsConcat(qs[1..]);
      if Q.Serialize(qs[0]).Ok? && AllSerialize(qs[1..]) {
        assert AllSerialize(qs) by {
          forall k | 0 <= k < |qs| ensures Q.Serialize(qs[k]).Ok? {
            if k > 0 {
              assert qs[k] == qs[1..][k - 1];
            }
          }
        }
        assert Serialized(qs)[1..] == Serialized(qs[1..]);
      }
      if AllSerialize(qs) {
        TailSerializes(qs);
      }
    }
  }

  lemma TailSerializes(qs: seq<Q.Question>)
    requires AllSerialize(qs) && qs != []
    ensures AllSerialize(qs[1..])
  {
    forall j | 0 <= j < |qs| - 1 ensures Q.Serialize(qs[1..][j]).Ok? {
      assert qs[1..][j] == qs[j + 1];
    }
  }

  /** Where question k's octets start: after those of the questions before it. */
  function Offset(qs: seq<Q.Question>, k: nat): nat
    requires AllSerialize(qs) && k <= |qs|
  {
    |Flatten(Serialized(qs)[..k])|
  }

  /** Question k's octets sit in list order, after those of the questions
      before it. */
  lemma QuestionPlaced(qs: seq<Q.Question>, k: nat)
    requires AllSerialize(qs) && k < |qs|
    ensures QuestionsWire(qs).Ok?
    ensures Offset(qs, k + 1) == Offset(qs, k) + |Q.Serialize(qs[k]).value| <= |QuestionsWire(qs).value|
    ensures QuestionsWire(qs).value[Offset(qs, k)..Offset(qs, k + 1)] == Q.Serialize(qs[k]).value
  {
    QuestionsConcat(qs);
    FlattenPlaced(Serialized(qs), k);
  }

  /** When serialization stops at a question, it is the first one that
      fails, and its error is the message's. */
  lemma {:induction false} FirstFailure(qs: seq<Q.Question>) returns (k: nat)
    requires QuestionsWire(qs).Err?
    ensures k < |qs| && Q.Serialize(qs[k]).Err?
    ensures forall j :: 0 <= j < k ==> Q.Serialize(qs[j]).Ok?
    ensures QuestionsWire(qs).error == Q.Serialize(qs[k]).error
  {
    if Q.Serialize(qs[0]).Err? {
      k := 0;
    } else {
      var j := FirstFailure(qs[1..]);
      k := j + 1;
      assert qs[1..][j] == qs[k];
      forall i | 0 <= i < k ensures Q.Serialize(qs[i]).Ok? {
        if i > 0 {
          assert qs[1..][i - 1] == qs[i];
        }
      }
    }
  }

  /** A message serializes exactly when the counted header packs and every
      question serializes; its octets are the 12 header octets, then the
      questions' octets. */
  lemma MessageLayout(h: H.Header, qs: seq<Q.Question>)
    ensures MessageWire(Some(h), Some(qs)).Ok?
        <==> H.Serialize(h.(qdcount := |qs|)).Ok? && AllSerialize(qs)
    ensures MessageWire(Some(h), Some(qs)).Ok? ==>
      var w := MessageWire(Some(h), Some(qs)).value;
      && |w| == 12 + |Flatten(Serialized(qs))|
      && w[..12] == H.Serialize(h.(qdcount := |qs|)).value
      && w[12..] == QuestionsWire(qs).value
  {
    QuestionsConcat(qs);
    H.SerializeOutcome(h.(qdcount := |qs|));
  }

  /** The header read back from a serialized message has the question count
      and every other field as stored, when they fit their widths. */
  lemma CountInHeader(h: H.Header, qs: seq<Q.Question>)
    requires H.InWidth(h.(qdcount := |qs|)) && AllSerialize(qs)
    ensures MessageWire(Some(h), Some(qs)).Ok?
    ensures H.FromBytes(MessageWire(Some(h), Some(qs)).value) == Ok(h.(qdcount := |qs|))
  {
    var counted := h.(qdcount := |qs|);
    H.HeaderRoundTrip(counted);
    H.SerializeOutcome(counted);
    QuestionsConcat(qs);
    H.FromBytesIgnoresRest(H.Serialize(counted).value, QuestionsWire(qs).value);
  }

  /** More than 65535 questions overflow the count word. */
  lemma TooManyQuestions(h: H.Header, qs: seq<Q.Question>)
    requires |qs| > 0xffff
    ensures MessageWire(Some(h), Some(qs)) == Err(StructError)
  {
    H.SerializeOutcome(h.(qdcount := |qs|));
  }

  /** The default `None` questions raise TypeError whatever the header, and
      a missing header raises AttributeError. */
  lemma MissingParts(header: Option<H.Header>, qs: seq<Q.Question>)
    ensures MessageWire(header, None) == Err(TypeError)
    ensures MessageWire(None, Some(qs)) == Err(AttributeError)
    ensures Counted(header, None) == header && Counted(None, Some(qs)) == None
  {
  }

  /** Serializing again after a serialization gives the same octets and
      leaves the header as it was. */
  lemma SerializeTwice(header: Option<H.Header>, questions: Option<seq<Q.Question>>)
    ensures MessageWire(Counted(header, questions), questions) == MessageWire(header, questions)
    ensures Counted(Counted(header, questions), questions) == Counted(header, questions)
  {
    if header.Some? && questions.Some? {
      var h := header.value;
      var n := |questions.value|;
      assert h.(qdcount := n).(qdcount := n) == h.(qdcount := n);
    }
  }

  /** A response header with id 1234 and one question `codecrafters.io`
      of type A: the header octets with count 1, then the question. */
  lemma ResponseVector()
    ensures MessageWire(Some(H.Empty().(qdcount := 1)), Some([Q.Named("codecrafters.io")]))
         == Ok(ResponseHeader + (Q.CodecraftersName + [0x00, 0x01, 0x00, 0x01]))
  {
    var q := Q.Named("codecrafters.io");
    var h := H.Empty().(qdcount := 1);
    ResponseHeaderOctets();
    Q.SerializeVectors();
    OneQuestion(q, Q.CodecraftersName + [0x00, 0x01, 0x00, 0x01]);
    MessageOf(h, [q], ResponseHeader, Q.CodecraftersName + [0x00, 0x01, 0x00, 0x01]);
  }

  const ResponseHeader: seq<Byte> := [0x04, 0xd2, 0x80, 0x00, 0x00, 0x01, 0x00, 0x00, 0x00, 0x00, 0x00, 0x00]

  lemma ResponseHeaderOctets()
    ensures H.Serialize(H.Empty().(qdcount := 1)) == Ok(ResponseHeader)
  {
    assert H.Flags(H.Empty().(qdcount := 1)) == 0x8000;
    assert U16(1234) + U16(0x8000) + U16(1) + U16(0) + U16(0) + U16(0) == ResponseHeader;
  }

  lemma OneQuestion(q: Q.Question, w: seq<Byte>)
    requires Q.Serialize(q) == Ok(w)
    ensures QuestionsWire([q]) == Ok(w)
  {
    assert [q][1..] == [];
    assert w + [] == w;
  }

  /** A message whose header packs to `hw` once counted and whose questions
      serialize to `qw`. */
  lemma MessageOf(h: H.Header, qs: seq<Q.Question>, hw: seq<Byte>, qw: seq<Byte>)
    requires H.Serialize(h.(qdcount := |qs|)) == Ok(hw) && QuestionsWire(qs) == Ok(qw)
    ensures MessageWire(Some(h), Some(qs)) == Ok(hw + qw)
  {
  }
}
