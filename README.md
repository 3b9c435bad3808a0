# DNS wire-format codec

This project models the codec of a small Python DNS server for the message
format of section 4 of RFC 1035 (TXC/codecrafters-dns-server-python). It covers:

- the 12-octet header and its flag word;
- the question entry, in the two versions the repository carries (`app/dns/question.py`
  and the `Question` of `app/dns/record.py`);
- the resource-record serialiser;
- domain names as length-prefixed labels, character-strings and dotted IPv4 addresses;
- the RDATA layouts of the record types, chosen through a table from the type;
- the code tables of the enumerations;
- the message serialiser, which stores the question count and concatenates the parts.

The Dafny model follows the Python code, including where the code departs from
RFC 1035:

- `encode_character_string` writes one extra `0x00`, and `decode_character_string`
  keeps one octet fewer than its length octet announces.
- The two question readers take the type and the class at offsets that do not match
  what `serialize` writes, so `from_bytes` never undoes `serialize`.
- `RDATA_SOA.decode` reads its five numbers from `data[len:4]`, so they read 0 once
  the names are read.
- `RDATA_MX.decode` stores the `(name, consumed)` pair as the exchange.
- `encode_domain_name` is handed a string by the MINFO, MX and SOA encoders, so every
  character becomes a one-octet label.
- The response codes NOT_IMPLEMENTED and REFUSED are 8 and 9.

Layout:

| file | module | models |
|---|---|---|
| wire.dfy | Wire | octets, the exception kinds as `Result` errors, Python slicing, `int.from_bytes`, `struct.pack` of 16- and 32-bit words, integer `&` and `\|` |
| text.dfy | Text | `str.split`, `join`, `replace`, `encode('ascii')`, `decode('utf-8')` on ASCII, `int()` and decimal rendering |
| types.dfy | Types | `app/dns/types.py` (and the identical enum copies in header.py and question.py) |
| encoding.dfy | Encoding | `app/dns/encoding.py` |
| header.dfy | DnsHeader | `app/dns/header.py` |
| question.dfy | QuestionCodec | `app/dns/question.py` |
| record.dfy | RecordCodec | `app/dns/record.py` |
| rdata.dfy | Rdata | `app/dns/rdata.py` |
| message.dfy | MessageCodec | `app/dns/message.py` |

Each fallible Python step returns a `Result`, whose error names the exception Python
would raise: IndexError, ValueError, OverflowError (`to_bytes`), StructError
(`struct.error`), TypeError, AttributeError, UnicodeEncodeError and UnicodeDecodeError.

The loops of the source are methods proved equal to a recursive specification
function, and the properties are lemmas about those functions:

- the label and address loops of `encoding.py`;
- the label walk shared by the three name readers;
- `Question.encode`;
- the two `from_bytes` readers;
- `RDATA.factory`, `RDATA_SOA.decode` and `RDATA_TXT.decode`;
- `Message.serialize`.

`Message` is a class whose `Serialize` method updates the stored header.

## Model

| member | source | states |
|---|---|---|
| Types.QClassCodes | app/dns/types.py:7-19 | a class code maps to a member exactly when it is that member's code, which happens for 1..4 (IN, CS, CH, HS); any other code raises ValueError |
| Types.QTypeCodes | app/dns/types.py:22-69 | a type code maps to a member exactly when it is that member's code; the codes run from A=1 to TXT=16, and any other code raises ValueError |
| Types.MessageTypeCodes | app/dns/types.py:72-77 | Query=0 and Response=1 are the only message types |
| Types.OpCodeCodes | app/dns/types.py:80-90 | the opcodes are 0..2; the reserved 3..15 have no member |
| Types.ResponseCodeCodes | app/dns/types.py:93-125 | the response codes are 0..3, 8 and 9, with NOT_IMPLEMENTED=8 and REFUSED=9 |
| Encoding.EncodeDomainName | app/dns/encoding.py:11-18 | the accumulating loop returns the label-form encoding of the parts |
| Encoding.DomainNameWireLayout | app/dns/encoding.py:11-18 | encoding succeeds iff every label is ASCII and at most 255 octets (no 63-octet limit); the output has length Σ(len+1)+1, ends in 0x00 and starts with the first label's length octet and ASCII octets |
| Encoding.DomainNameWireCons | app/dns/encoding.py:13-15 | a name's encoding is its first label's length octet and octets before the encoding of the remaining labels |
| Encoding.EmptyNameWire | app/dns/encoding.py:17-18 | no labels encode as the single terminator 0x00 |
| Encoding.WalkLabels | app/dns/encoding.py:58-68 | the reading loop agrees with the label-walk function: the text read so far and the index where it stopped |
| Encoding.WalkEnds | app/dns/encoding.py:60-63 | the walk stops on a 0x00 octet or at or past the end of the buffer, never before where it started |
| Encoding.WalkAdvances | app/dns/encoding.py:65-68 | each label read moves the walk forward by at least two octets |
| Encoding.DecodeDomainName | app/dns/encoding.py:50-73 | the method agrees with the name-reading function |
| Encoding.WalkAscii | app/dns/encoding.py:67 | every label text the walk reads is ASCII, since an octet above 127 is a decode failure |
| Encoding.NameAscii | app/dns/encoding.py:50-73 | a decoded name is ASCII text |
| Encoding.NameConsumes | app/dns/encoding.py:50-73 | a successful read consumes at least two octets |
| Encoding.WalkEncodedName | app/dns/encoding.py:60-68 | walking an encoded name anywhere in a buffer yields each label followed by '.', and stops on its terminator |
| Encoding.DomainNameRoundTrip | app/dns/encoding.py:11-73 | for non-empty ASCII labels without '.', decoding the encoding (whatever follows) gives the labels joined by '.' and the encoded length |
| Encoding.EmptyNameFails | app/dns/encoding.py:70 | an empty buffer, or one starting with 0x00, raises IndexError at `qname[-1]` |
| Encoding.CharacterStringNotRoundTrip | app/dns/encoding.py:21-87 | a character-string is written as length, ASCII octets and an extra 0x00 (len+2 octets); reading it back yields the text without its last character, with len+1 octets consumed |
| Encoding.CharacterStringAdvances | app/dns/encoding.py:84-87 | the reported count is the length octet plus one, so at least 1 |
| Encoding.EncodeIp | app/dns/encoding.py:30-34 | the accumulating loop returns the octet-per-piece encoding |
| Encoding.IpWireLayout | app/dns/encoding.py:30-34 | the address form succeeds iff every piece is an integer in 0..255, and then is one octet per piece equal to that integer |
| Encoding.IpWireValueError | app/dns/encoding.py:30-34 | a non-integer piece, when every integer piece is in 0..255, raises ValueError |
| Encoding.IpWireOverflow | app/dns/encoding.py:30-34 | all pieces integers and one outside 0..255 raises OverflowError |
| Encoding.IpFirstFailure | app/dns/encoding.py:30-34 | when `encode_ip` raises, the exception is that of the first piece that is not an octet, every piece before it being one |
| Encoding.IpMixedVectors | app/dns/encoding.py:30-34 | with both kinds of bad piece the first decides: "1.300.x" raises OverflowError and "1.x.300" raises ValueError, the only one of the two that `encode` catches |
| Encoding.EncodeAddressForm | app/dns/encoding.py:37-44 | after rewriting '@', '-' and '+' to '.', pieces that are all octets give the address form with one octet per piece |
| Encoding.EncodeLabelForm | app/dns/encoding.py:37-46 | a non-integer piece, with no out-of-range integer piece, makes the ValueError fall back to the label form |
| Encoding.EncodeOverflow | app/dns/encoding.py:37-46 | all-integer pieces with one out of range let OverflowError escape |
| Encoding.EncodeHyphen | app/dns/encoding.py:38-41 | a hyphenated label becomes two labels: "a-b" encodes as 01 61 01 62 00 |
| Encoding.IpWireDecimals | app/dns/encoding.py:30-34 | the decimal renderings of octets encode back to those octets |
| Encoding.AddressRoundTrip | app/dns/encoding.py:90-98 | the dotted quad `decode_ip` renders from four octets encodes back to those four octets |
| Encoding.NameRoundTrip | app/dns/encoding.py:37-73 | a name of plain labels takes the label form and decodes back to itself |
| Encoding.DecodeReadsName | app/dns/encoding.py:101-105 | `decode` is `decode_domain_name`, the empty buffer included (both raise IndexError there) |
| DnsHeader.FlagsRange | app/dns/header.py:171-180 | the flag word fits 16 bits iff every shifted field stays within the word |
| DnsHeader.FlagsLayout | app/dns/header.py:171-180 | with in-width fields the OR of the shifted fields is qr, opcode, aa, tc, rd in the high octet and ra, z, rcode in the low octet |
| DnsHeader.FlagOctetFields | app/dns/header.py:171-180 | each field can be read back from its bits of the two flag octets |
| DnsHeader.SerializeOutcome | app/dns/header.py:170-190 | serialization fails with struct.error iff a word is out of range; otherwise it gives 12 octets with id, flags and the four counts big-endian in order |
| DnsHeader.FromBytesOutcome | app/dns/header.py:122-150 | parsing raises IndexError below 4 octets and ValueError for an opcode outside 0..2 or an rcode outside {0,1,2,3,8,9}; it succeeds otherwise |
| DnsHeader.FromBytesInWidth | app/dns/header.py:122-150 | every parsed field is within its bit width |
| DnsHeader.ParseFlagOctets | app/dns/header.py:126-140 | the masks and shifts of `from_bytes` recover each field from the octets `serialize` writes |
| DnsHeader.HeaderRoundTrip | app/dns/header.py:122-190 | for in-width fields, parsing the serialized header gives the header back |
| DnsHeader.BytesRoundTrip | app/dns/header.py:122-190 | serializing a parsed header reproduces the first 12 octets of the buffer |
| DnsHeader.FromBytesIgnoresRest | app/dns/header.py:122-150 | octets after the twelfth do not affect the parsed header |
| DnsHeader.ShortHeader | app/dns/header.py:142-145 | a 4-octet buffer parses with all counts 0, since the slices past the end are empty |
| DnsHeader.FieldsOverlap | app/dns/header.py:171-180 | fields are not masked: z=8 and ra=1 serialize to the same octets |
| DnsHeader.EmptyOctets | app/dns/header.py:153-168 | `Header.empty()` serializes to 04 d2 80 00 and eight zero octets |
| DnsHeader.WithIdOctets | app/dns/header.py:65-119 | `Header(id=1357)` serializes to 05 4d and ten zero octets |
| DnsHeader.EmptyFromOctets | app/dns/header.py:122-168 | those twelve octets parse back to `Header.empty()` |
| QuestionCodec.Encode | app/dns/question.py:86-95 | the accumulating loop returns the label encoding of `name.split('.')` |
| QuestionCodec.NameWireOfLabels | app/dns/question.py:86-95 | a dotted name whose pieces hold no '.' encodes as those pieces |
| QuestionCodec.SerializeLayout | app/dns/question.py:77-84 | serialization succeeds iff every piece is a valid label; it is the encoded name, then 00 type 00 class |
| QuestionCodec.FromBytes | app/dns/question.py:97-120 | the reading loop agrees with the question-reading function |
| QuestionCodec.LookupCodes | app/dns/question.py:116-120 | construction succeeds iff the type is in 1..16 and the class in 1..4, and keeps the name and both codes; otherwise it raises ValueError |
| QuestionCodec.QuestionAtEncoded | app/dns/question.py:99-120 | after an encoded name the reader takes the type from the first following octet alone and the class from octets 2..3 |
| QuestionCodec.NoRoundTrip | app/dns/question.py:77-120 | for a name whose labels are all non-empty, reading the serialized question raises ValueError: the type reads as 0 |
| QuestionCodec.LeadingEmptyLabel | app/dns/question.py:99-113 | for the empty name or a name starting with '.', the serialized question starts with 0x00, the reader stops with no text and `qname[-1]` raises IndexError |
| QuestionCodec.TrailingDot | app/dns/question.py:77-120 | for non-empty labels followed by a trailing '.', the extra empty label puts 0x00 after the terminator, so the type reads as 0 and the read raises ValueError |
| QuestionCodec.EmptyLabelInside | app/dns/question.py:77-120 | an empty label inside the name is not rejected: "a..b..cc" reads back as the question "a" of type A and class CS, taken from the octets of the labels that follow |
| QuestionCodec.QuestionAtAccepts | app/dns/question.py:99-120 | an accepted buffer has a 0x00 at the stop index, the type code in the next octet and the class in the octets after a skipped one |
| QuestionCodec.EncodeVectors | tests/test_dns.py:24-35 | 'google.com' and 'codecrafters.io' encode to the test octets |
| QuestionCodec.SerializeVectors | tests/test_dns.py:56-75 | the two test questions serialize to the test octets |
| QuestionCodec.FromBytesVectors | tests/test_dns.py:37-54 | the two test buffers read back as the test questions (A and CNAME, class IN) |
| RecordCodec.EncodeAgrees | app/dns/record.py:32-39 | without '@', '-' or '+' in the value, `BaseRecord.encode` agrees with `Encoding.encode` |
| RecordCodec.EncodeForms | app/dns/record.py:32-39 | all-octet pieces give the address form, a non-integer piece gives the label form, an out-of-range integer raises OverflowError |
| RecordCodec.FromBytes | app/dns/record.py:53-84 | the reading loop agrees with the question-reading function |
| RecordCodec.QuestionAtEncoded | app/dns/record.py:53-84 | after an encoded name the type is the two octets after the terminator and the class the two after a skipped one |
| RecordCodec.QuestionRoundTrip | app/dns/record.py:44-84 | when the question ends the buffer and its name is plain labels, reading the serialized question gives it back |
| RecordCodec.QuestionFollowed | app/dns/record.py:44-84 | when any octet follows the serialized question, the class reads as at least 256 and the read raises ValueError |
| RecordCodec.QuestionAtAccepts | app/dns/record.py:53-84 | an accepted buffer has 00 00 type after the terminator's index and at least one class octet at i+4 |
| RecordCodec.RecordLayout | app/dns/record.py:93-111 | the rdata error comes first, then the name error, then struct.error for a ttl or rdlength out of range; on success the layout is name, type, class, ttl, rdlength, rdata |
| RecordCodec.RdlengthUnchecked | app/dns/record.py:99-108 | the length field is written as stored: changing it changes only those two octets |
| RecordCodec.RecordWithoutData | app/dns/record.py:87-97 | the default `rdata=None` raises AttributeError |
| Rdata.GetCallable | app/dns/rdata.py:12-28 | the eight name-valued types map to RDATA_DOMAIN; any other type maps to the class named after it, and WKS, which has none, raises AttributeError |
| Rdata.Factory | app/dns/rdata.py:30-42 | the assigning loop agrees with the factory function |
| Rdata.FactoryAssigns | app/dns/rdata.py:30-42 | the factory succeeds iff the type has a class, there are enough arguments and each converts; the record's i-th field is then the i-th converted argument |
| Rdata.ConvertedValues | app/dns/rdata.py:38-41 | conversion of the fields from a onward succeeds iff enough arguments remain and each converts, and yields them in order |
| Rdata.BuildValues | app/dns/rdata.py:36-41 | a record built from field values holds exactly those values, in declaration order |
| Rdata.ARoundTrip | app/dns/rdata.py:71-77 | an A record's decoded dotted quad encodes back to the four octets it came from |
| Rdata.AVector | tests/common.py:38-42 | '8.8.8.8' and the octets 08 08 08 08 decode and encode to each other |
| Rdata.DomainRoundTrip | app/dns/rdata.py:83-89 | a name of plain labels encodes and decodes back to itself |
| Rdata.HinfoNoRoundTrip | app/dns/rdata.py:96-108 | HINFO writes cpu then os as character-strings (len+2 octets each); reading it back gives cpu without its last character and an empty os, since os is read from cpu's extra 0x00 |
| Rdata.CharsWire | app/dns/rdata.py:121-126 | a string handed to `encode_domain_name` is written one character per label: 01 c for each character, then 0x00 |
| Rdata.CharsWireLength | app/dns/rdata.py:121-126 | that encoding exists iff the string is ASCII, and has 2n+1 octets |
| Rdata.CharsJoined | app/dns/rdata.py:121-126 | those labels read back as the characters separated by '.' |
| Rdata.MinfoRoundTrip | app/dns/rdata.py:115-126 | MINFO writes rmailbx then emailbx; reading back gives each name with a '.' between its characters |
| Rdata.MxDecodesPair | app/dns/rdata.py:133-145 | MX writes the preference word then the exchange; reading back gives the preference and the (name, consumed) pair as the exchange |
| Rdata.MxNoRoundTrip | app/dns/rdata.py:133-145 | re-encoding a decoded MX always fails: AttributeError on the int in the pair, or OverflowError first for a name longer than 255 |
| Rdata.SoaDecode | app/dns/rdata.py:157-178 | the offset-threading method agrees with the SOA reading function |
| Rdata.SoaNumbersZero | app/dns/rdata.py:164-173 | every decoded SOA has serial, refresh, retry, expire and minimum 0 |
| Rdata.SoaLayout | app/dns/rdata.py:180-194 | SOA encoding succeeds iff both names are ASCII and the five numbers fit 32 bits; it is mname, rname, then the five numbers big-endian in order |
| Rdata.SoaNoRoundTrip | app/dns/rdata.py:157-194 | reading an encoded SOA gives both names back with '.' between characters and all five numbers 0 |
| Rdata.TxtDecode | app/dns/rdata.py:200-208 | the while-loop agrees with the TXT reading function and terminates: each step consumes at least one octet |
| Rdata.TxtNoRoundTrip | app/dns/rdata.py:200-211 | TXT writes one character-string; reading it back gives the text without its last character |
| Rdata.NullKeepsPrefix | app/dns/rdata.py:217-220 | NULL decoding keeps the first 65535 octets as text, and fails with a decode error on a non-ASCII octet among them |
| Rdata.NullNoRoundTrip | app/dns/rdata.py:217-223 | a NULL record written as a character-string reads back with the length character and the trailing NUL in its text |
| MessageCodec.Message.Serialize | app/dns/message.py:13-19 | the question count is stored first, even when packing then fails; then the header octets and each question's octets follow; questions are untouched |
| MessageCodec.QuestionsConcat | app/dns/message.py:17-18 | the questions serialize iff each does, and then to their octets one after the other |
| MessageCodec.QuestionPlaced | app/dns/message.py:17-18 | question k's octets sit right after those of the questions before it, in list order |
| MessageCodec.FirstFailure | app/dns/message.py:17-18 | a failure is the first failing question's error, with every question before it serializing |
| MessageCodec.MessageLayout | app/dns/message.py:13-19 | the output exists iff the counted header packs and every question serializes; it is 12 header octets then the questions, so its length is 12 plus theirs |
| MessageCodec.CountInHeader | app/dns/message.py:14-15 | the header read back from the output has qdcount = len(questions) and every other field as stored |
| MessageCodec.TooManyQuestions | app/dns/message.py:14-15 | more than 65535 questions make the count word overflow (struct.error) |
| MessageCodec.MissingParts | app/dns/message.py:10-14 | the default `None` questions raise TypeError and a missing header raises AttributeError, before anything changes |
| MessageCodec.SerializeTwice | app/dns/message.py:13-19 | serializing again gives the same octets and leaves the header as the first call left it |
| MessageCodec.ResponseVector | tests/test_dns.py:102-122 | a response header with id 1234 and the question codecrafters.io/A serializes to the test octets |

## Left out

- Sockets, the server loop of `app/main.py`, logging and the test socket mocks are I/O and not modelled.
- UTF-8 decoding is modelled on ASCII only: any octet above 127 makes `decode('utf-8')` fail with UnicodeDecodeError, though Python would accept well-formed multi-octet sequences.
- `int()` is modelled for an optional sign followed by ASCII decimal digits. Python also accepts surrounding whitespace, `_` separators and non-ASCII Unicode decimal digits (such as Arabic-Indic '١' or fullwidth '３'), and those inputs are not modelled. As a consequence, `Encoding.encode('١.٢.٣.٤')` takes the address form in Python and returns 01 02 03 04, while the model's `Encoding.Encode` gets ValueError from `ParseInt`, falls back to the label form and returns UnicodeEncodeError; likewise an int field of `RDATA.factory` given such digits (or whitespace or `_`) is converted in Python but fails with ValueError in the model's `Convert`.
- Name compression (section 4.1.4 of RFC 1035) is not modelled, because no reader in the source follows pointers. An octet of 0xC0 or more is read as a plain label length, as the source does.
- The reflection of `RDATA.get_callable` (`import_module`, `getattr`) is replaced by an explicit table from type to layout. Its TypeError for an argument that is not a record type cannot arise with a typed parameter.
- RType is not modelled; the QType table of `app/dns/types.py` stands in for it. RType, DomainName and CharacterString come from `app.dns.common`, which is not part of this model.
- Construction of the RDATA subclasses (keyword or positional) is not modelled. The subclasses are not dataclasses, so both `cls(data=..)` and the positional `cls(rdata)` of the TXT and NULL decoders (app/dns/rdata.py:208, 220) would raise TypeError in Python; all eight decoders build the record values directly instead.
- `RDATA.__copy__` is not modelled: it copies each annotated field, and record values in Dafny are immutable, so copying changes nothing.
- `RDATA.factory` models the annotation types as text (DomainName, CharacterString, str, kept as given) or int (parsed with `int()`).
- The `_encode_str` and `_encode_ip` loops of `app/dns/record.py` are the same loops as `encode_domain_name` and `encode_ip`. They are modelled once, by Encoding.EncodeDomainName and Encoding.EncodeIp.
- MessageCodec.Message.Serialize: the header is a value held by the message. Another holder of the same Python header object would also see the new qdcount; that aliasing is not modelled.
- The `questions` field of `Header` is not part of the wire form, so the header datatype leaves it out.
