/** app/dns/rdata.py: the RDATA layouts of sections 3.3 and 3.4.1 of
    RFC 1035, one decoder and one encoder per record type, chosen through a
    table from the record type. `RDATA_X.decode` builds the object with the
    fields it read; here that object is an `RData` value. */
module Rdata {
  import opened Wire
  import opened Text
  import opened Types
  import opened Encoding

  /** The RDATA classes, one per layout. */
  datatype Kind = AKind | DomainKind | HinfoKind | MinfoKind | MxKind | SoaKind | TxtKind | NullKind

  /** The eight types whose data is a single domain name share RDATA_DOMAIN. */
  predicate SharesDomain(t: QType)
  {
    t in {CNAME, MB, MD, MF, MG, MR, NS, PTR}
  }

  /** The member name of a record type, `t.name.upper()`. */
  function TypeName(t: QType): string
  {
    match t
    case A => "A"
    case NS => "NS"
    case MD => "MD"
    case MF => "MF"
    case CNAME => "CNAME"
    case SOA => "SOA"
    case MB => "MB"
    case MG => "MG"
    case MR => "MR"
    case NULL => "NULL"
    case WKS => "WKS"
    case PTR => "PTR"
    case HINFO => "HINFO"
    case MINFO => "MINFO"
    case MX => "MX"
    case TXT => "TXT"
  }

  /** The class name of a layout, after its `RDATA_` prefix. */
  function ClassName(k: Kind): string
  {
    match k
    case AKind => "A"
    case DomainKind => "DOMAIN"
    case HinfoKind => "HINFO"
    case MinfoKind => "MINFO"
    case MxKind => "MX"
    case SoaKind => "SOA"
    case TxtKind => "TXT"
    case NullKind => "NULL"
  }

  /** `RDATA.get_callable(t)`: the class RDATA_DOMAIN for the name-valued
      types, the class named after the type otherwise; WKS has no class. */
  function KindOf(t: QType): Result<Kind>
  {
    match t
    case CNAME | MB | MD | MF | MG | MR | NS | PTR => Ok(DomainKind)
    case A => Ok(AKind)
    case SOA => Ok(SoaKind)
    case NULL => Ok(NullKind)
    case HINFO => Ok(HinfoKind)
    case MINFO => Ok(MinfoKind)
    case MX => Ok(MxKind)
    case TXT => Ok(TxtKind)
    case WKS => Err(AttributeError)
  }

  /** The table agrees with the lookup by name it replaces: a name-valued
      type gets RDATA_DOMAIN; any other type gets the class whose name is the
      type's, and AttributeError when there is none. */
  lemma GetCallable(t: QType)
    ensures SharesDomain(t) ==> KindOf(t) == Ok(DomainKind)
    ensures !SharesDomain(t) ==> (KindOf(t).Ok? <==> exists k :: ClassName(k) == TypeName(t))
    ensures !SharesDomain(t) && KindOf(t).Ok? ==> ClassName(KindOf(t).value) == TypeName(t)
    ensures KindOf(t).Err? ==> KindOf(t).error == AttributeError
  {
    if t == WKS {
      forall k: Kind ensures ClassName(k) != "WKS" {
        assert ClassName(k)[0] != 'W' || |ClassName(k)| != 3;
      }
    } else if !SharesDomain(t) {
      assert ClassName(KindOf(t).value) == TypeName(t);
    }
  }

  /** How `RDATA_MX.decode` stores the exchange: the `(name, consumed)` pair
      `decode_domain_name` returned, where a constructed record holds a name. */
  datatype Exchange = Name(name: string) | Decoded(name: string, consumed: nat)

  /** One value per RDATA class, with the class's fields. */
  datatype RData =
    | AData(data: string)
    | DomainData(data: string)
    | HinfoData(cpu: string, os: string)
    | MinfoData(rmailbx: string, emailbx: string)
    | MxData(preference: int, exchange: Exchange)
    | SoaData(mname: string, rname: string, serial: int, refresh: int, retry: int, expire: int, minimum: int)
    | TxtData(data: string)
    | NullData(data: string)
  {
    function Class(): Kind
    {
      match this
      case AData(_) => AKind
      case DomainData(_) => DomainKind
      case HinfoData(_, _) => HinfoKind
      case MinfoData(_, _) => MinfoKind
      case MxData(_, _) => MxKind
      case SoaData(_, _, _, _, _, _, _) => SoaKind
      case TxtData(_) => TxtKind
      case NullData(_) => NullKind
    }
  }

  // ---------------------------------------------------------------- factory

  /** The type of an annotated field: text (DomainName, CharacterString,
      str) or int. */
  datatype Field = TextField | IntField

  datatype Value = TextValue(text: string) | IntValue(number: int)

  /** The annotated fields of each class, in declaration order. */
  function Fields(k: Kind): seq<Field>
  {
    match k
    case AKind => [TextField]
    case DomainKind => [TextField]
    case HinfoKind => [TextField, TextField]
    case MinfoKind => [TextField, TextField]
    case MxKind => [IntField, TextField]
    case SoaKind => [TextField, TextField, IntField, IntField, IntField, IntField, IntField]
    case TxtKind => [TextField]
    case NullKind => [TextField]
  }

  /** `_type(arg)`: text is kept, an int field parses the argument. */
  function Convert(f: Field, arg: string): Result<Value>
  {
    if f == TextField then Ok(TextValue(arg))
    else
      match ParseInt(arg)
      case Err(e) => Err(e)
      case Ok(n) => Ok(IntValue(n))
  }

  predicate Fits(f: Field, v: Value)
  {
    f.TextField? == v.TextValue?
  }

  /** The converted arguments for fields a.. in order: IndexError at the
      first field without an argument, the first failed conversion's
      exception otherwise. */
  function Converted(fields: seq<Field>, args: seq<string>, a: nat): Result<seq<Value>>
    requires a <= |fields|
    decreases |fields| - a
  {
    if a == |fields| then Ok([])
    else if |args| <= a then Err(IndexError)
    else
      match Convert(fields[a], args[a])
      case Err(e) => Err(e)
      case Ok(v) => After([v], Converted(fields, args, a + 1))
  }

  /** The record of class k whose fields, in declaration order, hold `vs`. */
  function Build(k: Kind, vs: seq<Value>): RData
    requires |vs| == |Fields(k)| && forall i :: 0 <= i < |vs| ==> Fits(Fields(k)[i], vs[i])
  {
    var fields := Fields(k);
    assert forall i :: 0 <= i < |vs| ==> Fits(fields[i], vs[i]);
    match k
    case AKind => assert Fits(fields[0], vs[0]); AData(vs[0].text)
    case DomainKind => assert Fits(fields[0], vs[0]); DomainData(vs[0].text)
    case HinfoKind =>
      assert Fits(fields[0], vs[0]) && Fits(fields[1], vs[1]);
      HinfoData(vs[0].text, vs[1].text)
    case MinfoKind =>
      assert Fits(fields[0], vs[0]) && Fits(fields[1], vs[1]);
      MinfoData(vs[0].text, vs[1].text)
    case MxKind =>
      assert Fits(fields[0], vs[0]) && Fits(fields[1], vs[1]);
      MxData(vs[0].number, Name(vs[1].text))
    case SoaKind =>
      assert Fits(fields[0], vs[0]) && Fits(fields[1], vs[1]) && Fits(fields[2], vs[2]);
      assert Fits(fields[3], vs[3]) && Fits(fields[4], vs[4]) && Fits(fields[5], vs[5]) && Fits(fields[6], vs[6]);
      SoaData(vs[0].text, vs[1].text, vs[2].number, vs[3].number, vs[4].number, vs[5].number, vs[6].number)
    case TxtKind => assert Fits(fields[0], vs[0]); TxtData(vs[0].text)
    case NullKind => assert Fits(fields[0], vs[0]); NullData(vs[0].text)
  }

  /** A record's fields in declaration order (a decoded MX exchange, which
      is a pair, is not one a factory can produce). */
  function Values(r: RData): seq<Value>
    requires !(r.MxData? && r.exchange.Decoded?)
  {
    match r
    case AData(d) => [TextValue(d)]
    case DomainData(d) => [TextValue(d)]
    case HinfoData(cpu, os) => [TextValue(cpu), TextValue(os)]
    case MinfoData(rm, em) => [TextValue(rm), TextValue(em)]
    case MxData(p, x) => [IntValue(p), TextValue(x.name)]
    case SoaData(m, n, s, f, t, e, mn) =>
      [TextValue(m), TextValue(n), IntValue(s), IntValue(f), IntValue(t), IntValue(e), IntValue(mn)]
    case TxtData(d) => [TextValue(d)]
    case NullData(d) => [TextValue(d)]
  }

  /** What `RDATA.factory(t, *args)` returns. */
  function Made(t: QType, args: seq<string>): Result<RData>
  {
    match KindOf(t)
    case Err(e) => Err(e)
    case Ok(k) =>
      match Converted(Fields(k), args, 0)
      case Err(e) => Err(e)
      case Ok(vs) => ConvertedFit(Fields(k), args, 0); Ok(Build(k, vs))
  }

  lemma {:induction false} ConvertedFit(fields: seq<Field>, args: seq<string>, a: nat)
    requires a <= |fields|
    ensures var r := Converted(fields, args, a);
      r.Ok? ==> |r.value| == |fields| - a && forall i :: 0 <= i < |r.value| ==> Fits(fields[a + i], r.value[i])
    decreases |fields| - a
  {
    if a < |fields| && a < |args| {
      ConvertedFit(fields, args, a + 1);
    }
  }

  /** `RDATA.factory`: look up the class, then assign the a-th argument,
      converted, to the a-th annotated field. */
  method Factory(t: QType, args: seq<string>) returns (r: Result<RData>)
    ensures r == Made(t, args)
  {
    var kind := KindOf(t);
    if kind.Err? {
      return Err(kind.error);
    }
    var fields := Fields(kind.value);
    var values: seq<Value> := [];
    AfterNothing(Converted(fields, args, 0));
    for a := 0 to |fields|
      invariant After(values, Converted(fields, args, a)) == Converted(fields, args, 0)
    {
      if |args| <= a {
        MadeFails(t, kind.value, args, IndexError);
        return Err(IndexError);
      }
      var v := Convert(fields[a], args[a]);
      if v.Err? {
        MadeFails(t, kind.value, args, v.error);
        return Err(v.error);
      }
      AfterAfter(values, [v.value], Converted(fields, args, a + 1));
      values := values + [v.value];
    }
    assert values + [] == values;
    MadeBuilds(t, kind.value, args, values);
    r := Ok(Build(kind.value, values));
  }

  lemma MadeFails(t: QType, k: Kind, args: seq<string>, e: Error)
    requires KindOf(t) == Ok(k) && Converted(Fields(k), args, 0) == Err(e)
    ensures Made(t, args) == Err(e)
  {
  }

  lemma MadeBuilds(t: QType, k: Kind, args: seq<string>, vs: seq<Value>)
    requires KindOf(t) == Ok(k) && Converted(Fields(k), args, 0) == Ok(vs)
    ensures |vs| == |Fields(k)| && forall i :: 0 <= i < |vs| ==> Fits(Fields(k)[i], vs[i])
    ensures Made(t, args) == Ok(Build(k, vs))
  {
    ConvertedFit(Fields(k), args, 0);
  }

  /** The factory succeeds exactly when the type has a class, there is an
      argument for every field and every int field's argument parses; the
      record then has the type's class and holds the converted arguments in
      field order. Extra arguments are ignored. */
  lemma FactoryAssigns(t: QType, args: seq<string>)
    ensures Made(t, args).Ok? <==>
      && KindOf(t).Ok?
      && |args| >= |Fields(KindOf(t).value)|
      && forall i :: 0 <= i < |Fields(KindOf(t).value)| ==> Convert(Fields(KindOf(t).value)[i], args[i]).Ok?
    ensures Made(t, args).Ok? ==>
      var r := Made(t, args).value;
      var fields := Fields(KindOf(t).value);
      && r.Class() == KindOf(t).value
      && !(r.MxData? && r.exchange.Decoded?)
      && |Values(r)| == |fields|
      && forall i :: 0 <= i < |fields| ==> Values(r)[i] == Convert(fields[i], args[i]).value
  {
    if KindOf(t).Ok? {
      var k := KindOf(t).value;
      ConvertedValues(Fields(k), args, 0);
      if Made(t, args).Ok? {
        var vs := Converted(Fields(k), args, 0).value;
        ConvertedFit(Fields(k), args, 0);
        BuildValues(k, vs);
      }
    }
  }

  lemma {:induction false} ConvertedValues(fields: seq<Field>, args: seq<string>, a: nat)
    requires a <= |fields|
    ensures Converted(fields, args, a).Ok? <==>
      (a == |fields| || |args| >= |fields|) && forall i :: a <= i < |fields| ==> Convert(fields[i], args[i]).Ok?
    ensures Converted(fields, args, a).Ok? ==>
      var vs := Converted(fields, args, a).value;
      |vs| == |fields| - a && forall i :: a <= i < |fields| ==> vs[i - a] == Convert(fields[i], args[i]).value
    decreases |fields| - a
  {
    if a < |fields| && a < |args| {
      ConvertedValues(fields, args, a + 1);
      var r := Converted(fields, args, a);
      if r.Ok? {
        var vs := r.value;
        forall i | a <= i < |fields| ensures vs[i - a] == Convert(fields[i], args[i]).value {
          if i > a {
            assert vs[i - a] == Converted(fields, args, a + 1).value[i - (a + 1)];
          }
        }
      } else if Convert(fields[a], args[a]).Ok? && |args| >= |fields| {
        var i :| a + 1 <= i < |fields| && !Convert(fields[i], args[i]).Ok?;
      }
    }
  }

  lemma BuildValues(k: Kind, vs: seq<Value>)
    requires |vs| == |Fields(k)| && forall i :: 0 <= i < |vs| ==> Fits(Fields(k)[i], vs[i])
    ensures Build(k, vs).Class() == k
    ensures !(Build(k, vs).MxData? && Build(k, vs).exchange.Decoded?)
    ensures Values(Build(k, vs)) == vs
  {
    var fields := Fields(k);
    assert forall i :: 0 <= i < |vs| ==> Fits(fields[i], vs[i]);
    match k
    case AKind =>
    case DomainKind =>
    case HinfoKind =>
    case MinfoKind =>
    case MxKind =>
    case SoaKind =>
      assert Fits(fields[2], vs[2]) && Fits(fields[3], vs[3]) && Fits(fields[4], vs[4]);
    case TxtKind =>
    case NullKind =>
  }

  // --------------------------------------------------------------- encoders

  /** The labels `encode_domain_name` iterates over when handed a string
      instead of a list: its characters, one label each. */
  function Chars(s: string): (labels: seq<string>)
    ensures |labels| == |s| && forall k :: 0 <= k < |s| ==> labels[k] == [s[k]]
  {
    if s == [] then [] else [[s[0]]] + Chars(s[1..])
  }

  /** `Encoding.encode_domain_name(s)` for a string s. */
  function NameOfText(s: string): Result<seq<Byte>>
  {
    DomainNameWire(Chars(s))
  }

  /** `encode_domain_name(exchange)`: a name is a string; a decoded pair is
      iterated as (name, consumed), so its name becomes one label and its
      count, an int, has no `encode`. */
  function ExchangeWire(x: Exchange): Result<seq<Byte>>
  {
    match x
    case Name(s) => NameOfText(s)
    case Decoded(s, _) =>
      match LabelWire(s)
      case Err(e) => Err(e)
      case Ok(_) => Err(AttributeError)
  }

  /** `RDATA_HINFO.encode`: cpu, then os, as character-strings. */
  function HinfoWire(r: RData): Result<seq<Byte>>
    requires r.HinfoData?
  {
    match CharacterStringWire(r.cpu)
    case Err(e) => Err(e)
    case Ok(c) => After(c, CharacterStringWire(r.os))
  }

  /** `RDATA_MINFO.encode`: rmailbx, then emailbx, each through
      `encode_domain_name`. */
  function MinfoWire(r: RData): Result<seq<Byte>>
    requires r.MinfoData?
  {
    match NameOfText(r.rmailbx)
    case Err(e) => Err(e)
    case Ok(a) => After(a, NameOfText(r.emailbx))
  }

  /** `RDATA_MX.encode`: the preference as `struct.pack('!H')`, then the
      exchange through `encode_domain_name`. */
  function MxWire(r: RData): Result<seq<Byte>>
    requires r.MxData?
  {
    if !IsU16(r.preference) then Err(StructError) else After(U16(r.preference), ExchangeWire(r.exchange))
  }

  /** `RDATA_SOA.encode`: mname, rname, then `struct.pack('!LLLLL')` of the
      five numbers. */
  function SoaWire(r: RData): Result<seq<Byte>>
    requires r.SoaData?
  {
    match NameOfText(r.mname)
    case Err(e) => Err(e)
    case Ok(a) =>
      match NameOfText(r.rname)
      case Err(e) => Err(e)
      case Ok(b) =>
        if NumbersFit(r) then Ok(a + b + Numbers(r)) else Err(StructError)
  }

  predicate NumbersFit(r: RData)
    requires r.SoaData?
  {
    IsU32(r.serial) && IsU32(r.refresh) && IsU32(r.retry) && IsU32(r.expire) && IsU32(r.minimum)
  }

  /** `struct.pack('!LLLLL', serial, refresh, retry, expire, minimum)`. */
  function Numbers(r: RData): (w: seq<Byte>)
    requires r.SoaData? && NumbersFit(r)
    ensures |w| == 20
  {
    U32(r.serial) + U32(r.refresh) + U32(r.retry) + U32(r.expire) + U32(r.minimum)
  }

  /** `RDATA_X.encode()` for the class of r: A and DOMAIN go through
      `Encoding.encode`, TXT and NULL write one character-string. */
  function Encode(r: RData): Result<seq<Byte>>
  {
    match r
    case AData(d) => Encoding.Encode(d)
    case DomainData(d) => Encoding.Encode(d)
    case HinfoData(_, _) => HinfoWire(r)
    case MinfoData(_, _) => MinfoWire(r)
    case MxData(_, _) => MxWire(r)
    case SoaData(_, _, _, _, _, _, _) => SoaWire(r)
    case TxtData(d) => CharacterStringWire(d)
    case NullData(d) => CharacterStringWire(d)
  }

  // --------------------------------------------------------------- decoders

  /** `RDATA_A.decode`: the first four octets as a dotted quad. */
  function AddressAt(data: seq<Byte>): Result<RData>
  {
    Ok(AData(DecodeIp(data).0))
  }

  /** `RDATA_DOMAIN.decode`: the name `decode_domain_name` reads. */
  function DomainAt(data: seq<Byte>): Result<RData>
  {
    match DomainNameAt(data)
    case Err(e) => Err(e)
    case Ok(name) => Ok(DomainData(name.0))
  }

  /** `RDATA_HINFO.decode`: cpu, then os from where cpu's consumed count
      says it ended. */
  function HinfoAt(data: seq<Byte>): Result<RData>
  {
    match CharacterStringAt(data)
    case Err(e) => Err(e)
    case Ok(cpu) =>
      match CharacterStringAt(Drop(data, cpu.1))
      case Err(e) => Err(e)
      case Ok(os) => Ok(HinfoData(cpu.0, os.0))
  }

  /** `RDATA_MINFO.decode`: two names, one after the other. */
  function MinfoAt(data: seq<Byte>): Result<RData>
  {
    match DomainNameAt(data)
    case Err(e) => Err(e)
    case Ok(rm) =>
      match DomainNameAt(Drop(data, rm.1))
      case Err(e) => Err(e)
      case Ok(em) => Ok(MinfoData(rm.0, em.0))
  }

  /** `RDATA_MX.decode`: the preference from octets 0 and 1, and as exchange
      the whole pair `decode_domain_name(data[2:])` returns. */
  function MxAt(data: seq<Byte>): Result<RData>
  {
    var preference := BigEndian(Slice(data, 0, 2));
    match DomainNameAt(Drop(data, 2))
    case Err(e) => Err(e)
    case Ok(x) => Ok(MxData(preference, Decoded(x.0, x.1)))
  }

  /** What `RDATA_SOA.decode` returns: the two names, then each number read
      from `data[len:4]` with `len` the offset reached so far. */
  function SoaAt(data: seq<Byte>): Result<RData>
  {
    match DomainNameAt(data)
    case Err(e) => Err(e)
    case Ok(m) =>
      match DomainNameAt(Drop(data, m.1))
      case Err(e) => Err(e)
      case Ok(n) =>
        var len := m.1 + n.1;
        Ok(SoaData(m.0, n.0,
          BigEndian(Slice(data, len, 4)), BigEndian(Slice(data, len + 4, 4)),
          BigEndian(Slice(data, len + 8, 4)), BigEndian(Slice(data, len + 12, 4)),
          BigEndian(Slice(data, len + 16, 4))))
  }

  /** `RDATA_SOA.decode`, moving the offset `len` forward field by field. */
  method SoaDecode(data: seq<Byte>) returns (r: Result<RData>)
    ensures r == SoaAt(data)
  {
    var len := 0;
    DropNothing(data);
    var mname := DecodeDomainName(Drop(data, len));
    if mname.Err? {
      return Err(mname.error);
    }
    len := len + mname.value.1;
    assert len == mname.value.1;
    var rname := DecodeDomainName(Drop(data, len));
    if rname.Err? {
      SoaSecondFails(data, mname.value.1, rname.error);
      return Err(rname.error);
    }
    len := len + rname.value.1;
    SoaRead(data, mname.value.0, mname.value.1, rname.value.0, rname.value.1);
    var serial := BigEndian(Slice(data, len, 4));
    len := len + 4;
    var refresh := BigEndian(Slice(data, len, 4));
    len := len + 4;
    var retry := BigEndian(Slice(data, len, 4));
    len := len + 4;
    var expire := BigEndian(Slice(data, len, 4));
    len := len + 4;
    var minimum := BigEndian(Slice(data, len, 4));
    r := Ok(SoaData(mname.value.0, rname.value.0, serial, refresh, retry, expire, minimum));
  }

  lemma DropNothing(data: seq<Byte>)
    ensures Drop(data, 0) == data
  {
  }

  lemma SoaSecondFails(data: seq<Byte>, mc: nat, e: Error)
    requires DomainNameAt(data).Ok? && DomainNameAt(data).value.1 == mc
    requires DomainNameAt(Drop(data, mc)) == Err(e)
    ensures SoaAt(data) == Err(e)
  {
  }

  /** SOA.decode once both names are read. */
  lemma SoaRead(data: seq<Byte>, mname: string, mc: nat, rname: string, rc: nat)
    requires DomainNameAt(data).Ok? && DomainNameAt(data).value.0 == mname && DomainNameAt(data).value.1 == mc
    requires var n := DomainNameAt(Drop(data, mc)); n.Ok? && n.value.0 == rname && n.value.1 == rc
    ensures SoaAt(data) == Ok(SoaData(mname, rname,
      BigEndian(Slice(data, mc + rc, 4)), BigEndian(Slice(data, mc + rc + 4, 4)),
      BigEndian(Slice(data, mc + rc + 8, 4)), BigEndian(Slice(data, mc + rc + 12, 4)),
      BigEndian(Slice(data, mc + rc + 16, 4))))
  {
  }

  /** The text of the character-strings from index i to the end, one after
      another. */
  function TxtFrom(data: seq<Byte>, i: nat): Result<string>
    decreases |data| - i
  {
    if |data| <= i then Ok([])
    else
      match CharacterStringAt(data[i..])
      case Err(e) => Err(e)
      case Ok(cs) => After(cs.0, TxtFrom(data, i + cs.1))
  }

  function TxtAt(data: seq<Byte>): Result<RData>
  {
    match TxtFrom(data, 0)
    case Err(e) => Err(e)
    case Ok(text) => Ok(TxtData(text))
  }

  /** `RDATA_TXT.decode`: read character-strings while any octet is left,
      concatenating their text. */
  method TxtDecode(data: seq<Byte>) returns (r: Result<RData>)
    ensures r == TxtAt(data)
  {
    var i := 0;
    var rdata: string := [];
    AfterNothing(TxtFrom(data, 0));
    while i < |data|
      invariant After(rdata, TxtFrom(data, i)) == TxtFrom(data, 0)
      decreases |data| - i
    {
      var cs := CharacterStringAt(data[i..]);
      if cs.Err? {
        TxtStops(data, i, cs.error);
        return Err(cs.error);
      }
      TxtStep(data, i, cs.value.0, cs.value.1);
      AfterAfter(rdata, cs.value.0, TxtFrom(data, i + cs.value.1));
      rdata := rdata + cs.value.0;
      i := i + cs.value.1;
    }
    assert rdata + [] == rdata;
    r := Ok(TxtData(rdata));
  }

  /** `RDATA_NULL.decode`: the first 65535 octets as text. */
  function NullAt(data: seq<Byte>): Result<RData>
  {
    match DecodeUtf8(Slice(data, 0, 65535))
    case Err(e) => Err(e)
    case Ok(text) => Ok(NullData(text))
  }

  /** `RDATA_X.decode(data)` for the class k. */
  function Decode(k: Kind, data: seq<Byte>): Result<RData>
  {
    match k
    case AKind => AddressAt(data)
    case DomainKind => DomainAt(data)
    case HinfoKind => HinfoAt(data)
    case MinfoKind => MinfoAt(data)
    case MxKind => MxAt(data)
    case SoaKind => SoaAt(data)
    case TxtKind => TxtAt(data)
    case NullKind => NullAt(data)
  }

  // ----------------------------------------------------------- properties

  /** A: an address read from four octets is written back as those four
      octets (section 3.4.1 of RFC 1035). */
  lemma ARoundTrip(data: seq<Byte>)
    requires |data| >= 4
    ensures AddressAt(data).Ok?
    ensures Encoding.Encode(AddressAt(data).value.data) == Ok(data[..4])
  {
    AddressRoundTrip(data);
  }

  /** The address of the unit tests: `8.8.8.8` and the octets 08 08 08 08. */
  lemma AVector()
    ensures AddressAt([8, 8, 8, 8]) == Ok(AData("8.8.8.8"))
    ensures Encode(AData("8.8.8.8")) == Ok([8, 8, 8, 8])
  {
    var data: seq<Byte> := [8, 8, 8, 8];
    EightsRead(data);
    AddressBoth(data, "8.8.8.8");
  }

  /** Four octets and the text they decode to are each other's A record. */
  lemma AddressBoth(data: seq<Byte>, address: string)
    requires |data| == 4 && DecodeIp(data).0 == address
    ensures AddressAt(data) == Ok(AData(address))
    ensures Encode(AData(address)) == Ok(data)
  {
    AddressRoundTrip(data);
    assert data[..4] == data;
    AEncode(address);
  }

  lemma EightsRead(data: seq<Byte>)
    requires data == [8, 8, 8, 8]
    ensures DecodeIp(data).0 == "8.8.8.8"
  {
    assert Slice(data, 0, 1) == [8] && Slice(data, 1, 2) == [8];
    assert Slice(data, 2, 3) == [8] && Slice(data, 3, 4) == [8];
    OctetAt([8], 0);
    EightsText();
  }

  lemma EightsText()
    ensures DottedQuad(8, 8, 8, 8) == "8.8.8.8"
  {
    assert Decimal(8) == "8";
    assert ["8", "8", "8", "8"][1..] == ["8", "8", "8"];
    assert ["8", "8", "8"][1..] == ["8", "8"] && ["8", "8"][1..] == ["8"];
    assert Join(["8"], '.') == "8";
  }

  /** `RDATA_A.encode` is `Encoding.encode` of its address. */
  lemma AEncode(address: string)
    ensures Encode(AData(address)) == Encoding.Encode(address)
  {
  }

  /** DOMAIN: a name in label form is written as its labels and read back
      as the same name, whatever follows it. */
  lemma DomainRoundTrip(labels: seq<string>, rest: seq<Byte>)
    requires PlainName(labels)
    ensures Encoding.Encode(Join(labels, '.')).Ok?
    ensures DomainAt(Encoding.Encode(Join(labels, '.')).value + rest) == Ok(DomainData(Join(labels, '.')))
  {
    NameRoundTrip(labels, rest);
  }

  /** A character-string whose length octet is 0 reads as no text and one
      octet consumed. */
  lemma EmptyString(data: seq<Byte>)
    requires data != [] && data[0] == 0
    ensures CharacterStringAt(data) == Ok(([], 1))
  {
    OctetAt(data, 0);
    assert Slice(data, 1, 0) == [];
    assert AsciiText([]) == [];
  }

  /** The octets of an encoded character-string: its length octet, its
      text, and the extra 0x00. */
  lemma StringWire(value: string)
    requires IsAscii(value) && |value| <= 255
    ensures CharacterStringWire(value).Ok?
    ensures var w := CharacterStringWire(value).value;
      |w| == |value| + 2 && w[0] == |value| && w[1..|value| + 1] == AsciiBytes(value) && w[|value| + 1] == 0
  {
  }

  /** HINFO is no round trip: cpu loses its last character, and os is read
      from the extra 0x00 that ends cpu's encoding, so it is always empty. */
  lemma HinfoNoRoundTrip(cpu: string, os: string, rest: seq<Byte>)
    requires IsAscii(cpu) && |cpu| <= 255 && IsAscii(os) && |os| <= 255
    ensures HinfoWire(HinfoData(cpu, os)).Ok?
    ensures |HinfoWire(HinfoData(cpu, os)).value| == |cpu| + |os| + 4
    ensures HinfoAt(HinfoWire(HinfoData(cpu, os)).value + rest)
         == Ok(HinfoData(if cpu == [] then [] else cpu[..|cpu| - 1], []))
  {
    StringWire(cpu);
    StringWire(os);
    var c := CharacterStringWire(cpu).value;
    var o := CharacterStringWire(os).value;
    Concat3(c, o, rest);
    CharacterStringNotRoundTrip(cpu, o + rest);
    HinfoRead(c + (o + rest), if cpu == [] then [] else cpu[..|cpu| - 1], |cpu| + 1);
  }

  /** HINFO.decode when cpu's consumed count points at a 0x00 octet. */
  lemma HinfoRead(data: seq<Byte>, cpu: string, n: nat)
    requires CharacterStringAt(data).Ok? && CharacterStringAt(data).value.0 == cpu && CharacterStringAt(data).value.1 == n
    requires n < |data| && data[n] == 0
    ensures HinfoAt(data) == Ok(HinfoData(cpu, []))
  {
    EmptyString(Drop(data, n));
  }

  /** The labels of a string are valid exactly when it is ASCII, and then
      decodable. */
  lemma CharsLabels(s: string)
    ensures ValidLabels(Chars(s)) <==> IsAscii(s)
    ensures IsAscii(s) ==> DecodableLabels(Chars(s))
  {
    var labels := Chars(s);
    if ValidLabels(labels) {
      forall k | 0 <= k < |s| ensures s[k] as int < 128 {
        assert ValidLabel(labels[k]) && labels[k][0] == s[k];
      }
    }
  }

  /** The length of `encode_domain_name` of an ASCII string. */
  lemma CharsWireLength(s: string)
    ensures NameOfText(s).Ok? <==> IsAscii(s)
    ensures IsAscii(s) ==> |NameOfText(s).value| == 2 * |s| + 1
  {
    CharsLabels(s);
    DomainNameWireLayout(Chars(s));
    if IsAscii(s) {
      CharsWire(s);
    }
  }

  /** `encode_domain_name` of an ASCII string writes each character as a
      one-octet label. */
  lemma {:induction false} CharsWire(s: string)
    requires IsAscii(s)
    ensures NameOfText(s).Ok?
    ensures var w := NameOfText(s).value;
      && |w| == 2 * |s| + 1 && w[2 * |s|] == 0
      && forall k :: 0 <= k < |s| ==> w[2 * k] == 1 && w[2 * k + 1] == s[k] as int
  {
    if s == [] {
      EmptyNameWire();
    } else {
      var tail := s[1..];
      assert IsAscii(tail);
      CharsWire(tail);
      assert Chars(s)[1..] == Chars(tail);
      CharsLabels(s);
      DomainNameWireCons(Chars(s));
      var head := [1] + AsciiBytes([s[0]]);
      assert head == [1, s[0] as int];
      CharsCons(s, NameOfText(tail).value);
    }
  }

  /** One more character in front: 01 c before the pairs of the rest. */
  lemma CharsCons(s: string, w': seq<Byte>)
    requires s != [] && IsAscii(s)
    requires |w'| == 2 * |s| - 1 && w'[2 * |s| - 2] == 0
    requires forall k :: 0 <= k < |s| - 1 ==> w'[2 * k] == 1 && w'[2 * k + 1] == s[k + 1] as int
    ensures var w := [1, s[0] as int] + w';
      && |w| == 2 * |s| + 1 && w[2 * |s|] == 0
      && forall k :: 0 <= k < |s| ==> w[2 * k] == 1 && w[2 * k + 1] == s[k] as int
  {
    var w := [1, s[0] as int] + w';
    forall k | 0 < k < |s| ensures w[2 * k] == 1 && w[2 * k + 1] == s[k] as int {
      assert w[2 * k] == w'[2 * (k - 1)];
      assert w[2 * k + 1] == w'[2 * (k - 1) + 1];
    }
  }

  /** The name those labels decode to: the characters separated by '.'. */
  lemma {:induction false} CharsJoined(s: string)
    requires s != []
    ensures var j := Join(Chars(s), '.');
      && |j| == 2 * |s| - 1
      && (forall k :: 0 <= k < |s| ==> j[2 * k] == s[k])
      && (forall k :: 0 <= k < |s| - 1 ==> j[2 * k + 1] == '.')
  {
    if |s| > 1 {
      var tail := s[1..];
      CharsJoined(tail);
      assert Chars(s)[1..] == Chars(tail);
      var j' := Join(Chars(tail), '.');
      var j := Join(Chars(s), '.');
      assert j == [s[0], '.'] + j';
      forall k | 0 <= k < |s| ensures j[2 * k] == s[k] {
        if k > 0 {
          assert j[2 * k] == j'[2 * (k - 1)];
          assert tail[k - 1] == s[k];
        }
      }
      forall k | 0 <= k < |s| - 1 ensures j[2 * k + 1] == '.' {
        if k > 0 {
          assert j[2 * k + 1] == j'[2 * (k - 1) + 1];
        }
      }
    }
  }

  /** A string written character by character reads back as its characters
      separated by '.', all of its 2 * |s| + 1 octets consumed. */
  lemma CharsNameRead(s: string, rest: seq<Byte>)
    requires s != [] && IsAscii(s)
    ensures NameOfText(s).Ok?
    ensures var r := DomainNameAt(NameOfText(s).value + rest);
      r.Ok? && r.value.0 == Join(Chars(s), '.') && r.value.1 == 2 * |s| + 1
  {
    CharsWireLength(s);
    CharsLabels(s);
    DomainNameRoundTrip(Chars(s), rest);
  }

  /** MINFO: each mailbox is written character by character, so it is read
      back with a '.' between every two characters ("ab" becomes "a.b"). */
  lemma MinfoRoundTrip(rm: string, em: string, rest: seq<Byte>)
    requires rm != [] && em != [] && IsAscii(rm) && IsAscii(em)
    ensures MinfoWire(MinfoData(rm, em)).Ok?
    ensures MinfoAt(MinfoWire(MinfoData(rm, em)).value + rest)
         == Ok(MinfoData(Join(Chars(rm), '.'), Join(Chars(em), '.')))
  {
    CharsWireLength(rm);
    CharsWireLength(em);
    var a := NameOfText(rm).value;
    var b := NameOfText(em).value;
    Concat3(a, b, rest);
    CharsNameRead(rm, b + rest);
    CharsNameRead(em, rest);
    DropPrefix(a, b + rest);
  }

  /** MX: the preference and the exchange name are written in that order;
      reading them back keeps the preference but stores the exchange as the
      pair (name with '.' between characters, octets consumed). */
  lemma MxDecodesPair(p: int, s: string, rest: seq<Byte>)
    requires IsU16(p) && s != [] && IsAscii(s)
    ensures var w := MxWire(MxData(p, Name(s)));
      && w.Ok? && |w.value| == 2 * |s| + 3
      && MxAt(w.value + rest) == Ok(MxData(p, Decoded(Join(Chars(s), '.'), 2 * |s| + 1)))
  {
    CharsNameRead(s, rest);
    CharsWireLength(s);
    MxWritten(p, s, NameOfText(s).value, rest);
  }

  lemma MxWritten(p: int, s: string, a: seq<Byte>, rest: seq<Byte>)
    requires IsU16(p) && NameOfText(s) == Ok(a)
    requires var r := DomainNameAt(a + rest); r.Ok? && r.value.0 == Join(Chars(s), '.') && r.value.1 == 2 * |s| + 1
    ensures MxWire(MxData(p, Name(s))) == Ok(U16(p) + a)
    ensures MxAt(U16(p) + a + rest) == Ok(MxData(p, Decoded(Join(Chars(s), '.'), 2 * |s| + 1)))
  {
    var data := U16(p) + a + rest;
    Concat3(U16(p), a, rest);
    MxRead(data, p, a + rest, Join(Chars(s), '.'), 2 * |s| + 1);
  }

  lemma MxRead(data: seq<Byte>, p: int, tail: seq<Byte>, name: string, consumed: nat)
    requires IsU16(p) && data == U16(p) + tail
    requires DomainNameAt(tail).Ok? && DomainNameAt(tail).value.0 == name && DomainNameAt(tail).value.1 == consumed
    ensures MxAt(data) == Ok(MxData(p, Decoded(name, consumed)))
  {
    assert Slice(data, 0, 2) == U16(p);
    assert Drop(data, 2) == tail;
  }

  /** The preference fits its 16-bit field. */
  lemma PreferenceFits(data: seq<Byte>)
    ensures IsU16(BigEndian(Slice(data, 0, 2)))
  {
    if |data| >= 2 {
      BigEndianTwo(data[..2]);
    } else if |data| == 1 {
      assert Slice(data, 0, 2) == [data[0]];
      assert [data[0]][..0] == [];
    }
  }

  /** MX is no round trip: a decoded record cannot be written again, since
      its exchange is a pair whose second member has no `encode`
      (OverflowError first when the name is longer than 255). */
  lemma MxNoRoundTrip(data: seq<Byte>)
    requires MxAt(data).Ok?
    ensures MxWire(MxAt(data).value)
         == Err(if |MxAt(data).value.exchange.name| <= 255 then AttributeError else OverflowError)
  {
    PreferenceFits(data);
    NameAscii(Drop(data, 2));
  }

  /** SOA: the numbers are read from `data[len:4]` after two names, which
      take at least two octets each, so every one of them reads as 0. */
  lemma SoaNumbersZero(data: seq<Byte>)
    requires SoaAt(data).Ok?
    ensures var r := SoaAt(data).value;
      r.SoaData? && r.serial == 0 && r.refresh == 0 && r.retry == 0 && r.expire == 0 && r.minimum == 0
  {
    var m := DomainNameAt(data).value;
    var n := DomainNameAt(Drop(data, m.1)).value;
    NameConsumes(data);
    NameConsumes(Drop(data, m.1));
    SoaRead(data, m.0, m.1, n.0, n.1);
    PastFour(data, m.1 + n.1);
  }

  /** `int.from_bytes(data[len:4])` once len has reached 4. */
  lemma PastFour(data: seq<Byte>, len: nat)
    requires len >= 4
    ensures BigEndian(Slice(data, len, 4)) == 0
    ensures BigEndian(Slice(data, len + 4, 4)) == 0
    ensures BigEndian(Slice(data, len + 8, 4)) == 0
    ensures BigEndian(Slice(data, len + 12, 4)) == 0
    ensures BigEndian(Slice(data, len + 16, 4)) == 0
  {
  }

  /** SOA layout: mname, rname, then serial, refresh, retry, expire and
      minimum as 32-bit big-endian words; it fails unless both names are
      ASCII and every number fits 32 bits. */
  lemma SoaLayout(soa: RData)
    requires soa.SoaData?
    ensures SoaWire(soa).Ok? <==> IsAscii(soa.mname) && IsAscii(soa.rname) && NumbersFit(soa)
    ensures SoaWire(soa).Ok? ==>
      var w := SoaWire(soa).value;
      var a := 2 * |soa.mname| + 1;
      var b := a + 2 * |soa.rname| + 1;
      && |w| == b + 20
      && w[..a] == NameOfText(soa.mname).value
      && w[a..b] == NameOfText(soa.rname).value
      && BigEndian(w[b..b + 4]) == soa.serial
      && BigEndian(w[b + 4..b + 8]) == soa.refresh
      && BigEndian(w[b + 8..b + 12]) == soa.retry
      && BigEndian(w[b + 12..b + 16]) == soa.expire
      && BigEndian(w[b + 16..b + 20]) == soa.minimum
  {
    CharsWireLength(soa.mname);
    CharsWireLength(soa.rname);
    if SoaWire(soa).Ok? {
      SoaLayoutOk(soa);
    }
  }

  lemma SoaLayoutOk(soa: RData)
    requires soa.SoaData? && SoaWire(soa).Ok?
    ensures var w := SoaWire(soa).value;
      var a := 2 * |soa.mname| + 1;
      var b := a + 2 * |soa.rname| + 1;
      && |w| == b + 20
      && w[..a] == NameOfText(soa.mname).value
      && w[a..b] == NameOfText(soa.rname).value
      && BigEndian(w[b..b + 4]) == soa.serial
      && BigEndian(w[b + 4..b + 8]) == soa.refresh
      && BigEndian(w[b + 8..b + 12]) == soa.retry
      && BigEndian(w[b + 12..b + 16]) == soa.expire
      && BigEndian(w[b + 16..b + 20]) == soa.minimum
  {
    CharsWireLength(soa.mname);
    CharsWireLength(soa.rname);
    SoaPieces(soa, NameOfText(soa.mname).value, NameOfText(soa.rname).value);
  }

  /** The SOA octets split into the two names and the five packed words. */
  lemma SoaPieces(soa: RData, m: seq<Byte>, n: seq<Byte>)
    requires soa.SoaData? && NumbersFit(soa)
    requires NameOfText(soa.mname) == Ok(m) && NameOfText(soa.rname) == Ok(n)
    ensures SoaWire(soa) == Ok(m + n + Numbers(soa))
    ensures var w := m + n + Numbers(soa);
      var b := |m| + |n|;
      && |w| == b + 20
      && w[..|m|] == m && w[|m|..b] == n
      && BigEndian(w[b..b + 4]) == soa.serial
      && BigEndian(w[b + 4..b + 8]) == soa.refresh
      && BigEndian(w[b + 8..b + 12]) == soa.retry
      && BigEndian(w[b + 12..b + 16]) == soa.expire
      && BigEndian(w[b + 16..b + 20]) == soa.minimum
  {
    SoaOctets(m, n, U32(soa.serial), U32(soa.refresh), U32(soa.retry), U32(soa.expire), U32(soa.minimum));
  }

  lemma SoaOctets(m: seq<Byte>, n: seq<Byte>, s1: seq<Byte>, s2: seq<Byte>, s3: seq<Byte>, s4: seq<Byte>, s5: seq<Byte>)
    requires |s1| == 4 && |s2| == 4 && |s3| == 4 && |s4| == 4 && |s5| == 4
    ensures var w := m + n + (s1 + s2 + s3 + s4 + s5);
      var b := |m| + |n|;
      && |w| == b + 20
      && w[..|m|] == m && w[|m|..b] == n
      && w[b..b + 4] == s1 && w[b + 4..b + 8] == s2 && w[b + 8..b + 12] == s3
      && w[b + 12..b + 16] == s4 && w[b + 16..b + 20] == s5
  {
  }

  /** SOA is no round trip: the names come back with a '.' between every
      two characters, and the numbers come back as 0. */
  lemma SoaNoRoundTrip(soa: RData)
    requires soa.SoaData? && SoaWire(soa).Ok? && soa.mname != [] && soa.rname != []
    ensures SoaAt(SoaWire(soa).value)
         == Ok(SoaData(Join(Chars(soa.mname), '.'), Join(Chars(soa.rname), '.'), 0, 0, 0, 0, 0))
  {
    SoaLayout(soa);
    CharsWireLength(soa.mname);
    var m := NameOfText(soa.mname).value;
    var n := NameOfText(soa.rname).value;
    var words := Numbers(soa);
    Concat3(m, n, words);
    CharsNameRead(soa.mname, n + words);
    CharsNameRead(soa.rname, words);
    DropPrefix(m, n + words);
    var data := m + (n + words);
    SoaRead(data, Join(Chars(soa.mname), '.'), |m|, Join(Chars(soa.rname), '.'), 2 * |soa.rname| + 1);
    PastFour(data, |m| + 2 * |soa.rname| + 1);
  }

  /** TXT is no round trip: the single character-string written loses its
      last character, and its extra 0x00 reads as an empty string. */
  lemma TxtNoRoundTrip(s: string)
    requires IsAscii(s) && |s| <= 255
    ensures CharacterStringWire(s).Ok?
    ensures TxtAt(CharacterStringWire(s).value) == Ok(TxtData(if s == [] then [] else s[..|s| - 1]))
  {
    StringWire(s);
    var w := CharacterStringWire(s).value;
    var text := if s == [] then [] else s[..|s| - 1];
    assert w + [] == w;
    CharacterStringNotRoundTrip(s, []);
    TxtStep(w, 0, text, |s| + 1);
    EmptyString(w[|s| + 1..]);
    TxtStep(w, |s| + 1, [], 1);
    assert TxtFrom(w, |s| + 2) == Ok([]);
    assert text + ([] + []) == text;
  }

  /** One step of the TXT walk. */
  lemma TxtStep(data: seq<Byte>, i: nat, text: string, n: nat)
    requires i < |data|
    requires CharacterStringAt(data[i..]).Ok? && CharacterStringAt(data[i..]).value.0 == text
    requires CharacterStringAt(data[i..]).value.1 == n
    ensures TxtFrom(data, i) == After(text, TxtFrom(data, i + n))
  {
  }

  lemma TxtStops(data: seq<Byte>, i: nat, e: Error)
    requires i < |data| && CharacterStringAt(data[i..]) == Err(e)
    ensures TxtFrom(data, i) == Err(e)
  {
  }

  /** NULL is no round trip: the length octet and the extra 0x00 of the
      character-string written come back as characters of the text. */
  lemma NullNoRoundTrip(s: string)
    requires IsAscii(s) && |s| < 128
    ensures CharacterStringWire(s).Ok?
    ensures NullAt(CharacterStringWire(s).value) == Ok(NullData([|s| as char] + s + [0 as char]))
  {
    StringWire(s);
    var w := CharacterStringWire(s).value;
    assert Slice(w, 0, 65535) == w;
    assert AllAscii(w);
    var t := [|s| as char] + s + [0 as char];
    assert AsciiText(w) == t;
  }

  /** NULL keeps the first 65535 octets: the text is those octets when
      they are ASCII, and a decode error otherwise. */
  lemma NullKeepsPrefix(data: seq<Byte>)
    ensures var kept := if |data| <= 65535 then data else data[..65535];
      && (AllAscii(kept) ==> NullAt(data) == Ok(NullData(AsciiText(kept))))
      && (!AllAscii(kept) ==> NullAt(data) == Err(UnicodeDecodeError))
  {
    if |data| <= 65535 {
      assert Slice(data, 0, 65535) == data;
    }
  }
}
