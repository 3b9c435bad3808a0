/** The closed code tables of app/dns/types.py. Each table is a datatype with
    the code of each member (`Value()`, Python's `.value`) and the partial
    lookup from a code to a member (Python's `Enum(code)`), which raises
    ValueError for a code no member has. header.py and question.py declare
    copies of the same tables with the same codes; this module stands for all
    of them. */
module Types {
  import opened Wire

  /** Query classes, as in section 3.2.4 of RFC 1035. */
  datatype QClass = IN | CS | CH | HS {
    function Value(): int
    {
      match this
      case IN => 1
      case CS => 2
      case CH => 3
      case HS => 4
    }
  }

  function QClassOf(code: int): Result<QClass>
  {
    if code == 1 then Ok(IN)
    else if code == 2 then Ok(CS)
    else if code == 3 then Ok(CH)
    else if code == 4 then Ok(HS)
    else Err(ValueError)
  }

  /** Record types A=1 .. TXT=16, as in section 3.2.2 of RFC 1035. */
  datatype QType =
    | A | NS | MD | MF | CNAME | SOA | MB | MG | MR | NULL | WKS | PTR | HINFO | MINFO | MX | TXT
  {
    function Value(): int
    {
      match this
      case A => 1
      case NS => 2
      case MD => 3
      case MF => 4
      case CNAME => 5
      case SOA => 6
      case MB => 7
      case MG => 8
      case MR => 9
      case NULL => 10
      case WKS => 11
      case PTR => 12
      case HINFO => 13
      case MINFO => 14
      case MX => 15
      case TXT => 16
    }
  }

  /** The members of QType in declaration order. */
  const QTypes: seq<QType> :=
    [A, NS, MD, MF, CNAME, SOA, MB, MG, MR, NULL, WKS, PTR, HINFO, MINFO, MX, TXT]

  function QTypeOf(code: int): Result<QType>
  {
    if 1 <= code <= |QTypes| then Ok(QTypes[code - 1]) else Err(ValueError)
  }

  datatype MessageType = Query | Response {
    function Value(): int
    {
      match this
      case Query => 0
      case Response => 1
    }
  }

  function MessageTypeOf(code: int): Result<MessageType>
  {
    if code == 0 then Ok(Query) else if code == 1 then Ok(Response) else Err(ValueError)
  }

  /** Operation codes; 3 to 15 are reserved and have no member. */
  datatype OpCode = QUERY | IQUERY | STATUS {
    function Value(): int
    {
      match this
      case QUERY => 0
      case IQUERY => 1
      case STATUS => 2
    }
  }

  function OpCodeOf(code: int): Result<OpCode>
  {
    if code == 0 then Ok(QUERY)
    else if code == 1 then Ok(IQUERY)
    else if code == 2 then Ok(STATUS)
    else Err(ValueError)
  }

  /** Response codes. NOT_IMPLEMENTED and REFUSED carry 8 and 9 here, where
      section 4.1.1 of RFC 1035 assigns 4 and 5. */
  datatype ResponseCode = NO_ERROR | FORMAT_ERROR | SERVER_FAILURE | NAME_ERROR | NOT_IMPLEMENTED | REFUSED {
    function Value(): int
    {
      match this
      case NO_ERROR => 0
      case FORMAT_ERROR => 1
      case SERVER_FAILURE => 2
      case NAME_ERROR => 3
      case NOT_IMPLEMENTED => 8
      case REFUSED => 9
    }
  }

  function ResponseCodeOf(code: int): Result<ResponseCode>
  {
    if code == 0 then Ok(NO_ERROR)
    else if code == 1 then Ok(FORMAT_ERROR)
    else if code == 2 then Ok(SERVER_FAILURE)
    else if code == 3 then Ok(NAME_ERROR)
    else if code == 8 then Ok(NOT_IMPLEMENTED)
    else if code == 9 then Ok(REFUSED)
    else Err(ValueError)
  }

  /** A code names a class exactly when it is that class's value; only 1..4 are codes. */
  lemma QClassCodes(code: int, c: QClass)
    ensures QClassOf(code) == Ok(c) <==> c.Value() == code
    ensures QClassOf(code).Ok? <==> 1 <= code <= 4
    ensures QClassOf(code).Err? ==> QClassOf(code).error == ValueError
  {
  }

  /** A code names a type exactly when it is that type's value; the codes run
      contiguously from 1 to 16 in declaration order. */
  lemma QTypeCodes(code: int, t: QType)
    ensures QTypeOf(code) == Ok(t) <==> t.Value() == code
    ensures QTypeOf(code).Ok? <==> 1 <= code <= 16
    ensures 1 <= code <= 16 ==> QTypeOf(code).value.Value() == code
    ensures QTypeOf(code).Err? ==> QTypeOf(code).error == ValueError
  {
  }

  lemma MessageTypeCodes(code: int, m: MessageType)
    ensures MessageTypeOf(code) == Ok(m) <==> m.Value() == code
    ensures MessageTypeOf(code).Ok? <==> code == 0 || code == 1
  {
  }

  /** Only 0, 1 and 2 are operation codes. */
  lemma OpCodeCodes(code: int, op: OpCode)
    ensures OpCodeOf(code) == Ok(op) <==> op.Value() == code
    ensures OpCodeOf(code).Ok? <==> 0 <= code <= 2
  {
  }

  /** Only 0..3, 8 and 9 are response codes; 4 and 5 are not. */
  lemma ResponseCodeCodes(code: int, rc: ResponseCode)
    ensures ResponseCodeOf(code) == Ok(rc) <==> rc.Value() == code
    ensures ResponseCodeOf(code).Ok? <==> 0 <= code <= 3 || code == 8 || code == 9
    ensures NOT_IMPLEMENTED.Value() == 8 && REFUSED.Value() == 9
  {
  }
}
