/**
 * IPP requests (section 3.1 of RFC 8010): the parser that takes out the ids, a few attributes
 * and the document, and the writers of attributes.
 */
module Ipp {
  import opened Bits
  import opened Options

  const TAG_END_OF_ATTRIBUTES: byte := 0x03

  predicate IsDelimiter(tag: byte) {
    1 <= tag <= 5
  }

  const INTERESTING: set<string> := {
    "document-format", "document-name", "job-name", "job-id", "job-uri", "printer-uri",
    "requesting-user-name", "which-jobs", "compression"
  }

  datatype Error = TooShort | TruncatedName | TruncatedValue

  datatype Request = Request(operationId: nat, requestId: nat, meta: map<string, string>, document: seq<byte>)

  datatype Result = Ok(request: Request) | Err(error: Error)

  /** What decodes text, leaving out what it cannot read. */
  type Decoder = seq<byte> -> string

  function BigEndian(s: seq<byte>): nat {
    if s == [] then 0 else 256 * BigEndian(s[..|s| - 1]) + s[|s| - 1]
  }

  /** The two bytes of a length. */
  function Short(n: nat): (s: seq<byte>)
    requires n < 65536
    ensures |s| == 2
  {
    [n / 256, n % 256]
  }

  lemma ShortRead(n: nat)
    requires n < 65536
    ensures BigEndian(Short(n)) == n
  {
    var s := Short(n);
    assert s[..1][..0] == [] && s[..1] == [n / 256];
    assert BigEndian(s[..1]) == n / 256;
  }

  // Slices that stop at the end of what there is.
  function Take(s: seq<byte>, n: nat): seq<byte> {
    if n <= |s| then s[..n] else s
  }

  function Drop(s: seq<byte>, n: nat): (r: seq<byte>)
    ensures |r| == if n <= |s| then |s| - n else 0
  {
    if n <= |s| then s[n..] else []
  }

  function Slice(s: seq<byte>, from: nat, to: nat): seq<byte>
    requires from <= to
  {
    Take(Drop(s, from), to - from)
  }

  lemma DropDrop(s: seq<byte>, n: nat, k: nat)
    ensures Drop(Drop(s, n), k) == Drop(s, n + k)
  {
  }

  lemma SliceOfDrop(s: seq<byte>, n: nat, a: nat, b: nat)
    requires a <= b
    ensures Slice(Drop(s, n), a, b) == Slice(s, n + a, n + b)
  {
    DropDrop(s, n, a);
  }

  // ----- Reading attributes -----

  function Noted(meta: map<string, string>, name: seq<byte>, value: seq<byte>, decode: Decoder): map<string, string> {
    if decode(name) in INTERESTING then meta[decode(name) := decode(value)] else meta
  }

  datatype Attributes = Attributes(meta: map<string, string>, document: seq<byte>) | Broken(error: Error)

  /** Reads from a tag on; a value without a name of its own belongs to the last name. */
  function ReadFrom(s: seq<byte>, lastName: seq<byte>, meta: map<string, string>, decode: Decoder): Attributes
    decreases |s|
  {
    if s == [] then Attributes(meta, [])
    else if s[0] == TAG_END_OF_ATTRIBUTES then Attributes(meta, Drop(s, 1))
    else if IsDelimiter(s[0]) then ReadFrom(Drop(s, 1), lastName, meta, decode)
    else if |s| < 3 then Broken(TruncatedName)
    else
      var at := 3 + BigEndian(Slice(s, 1, 3));
      var name := if at == 3 then lastName else Slice(s, 3, at);
      if |s| < at + 2 then Broken(TruncatedValue)
      else
        var end := at + 2 + BigEndian(Slice(s, at, at + 2));
        ReadFrom(Drop(s, end), name, Noted(meta, name, Slice(s, at + 2, end), decode), decode)
  }

  function Ended(raw: seq<byte>, read: Attributes): Result
    requires |raw| >= 8
  {
    match read
    case Broken(error) => Err(error)
    case Attributes(meta, document) => Ok(Request(BigEndian(raw[2..4]), BigEndian(raw[4..8]), meta, document))
  }

  function Parsed(raw: seq<byte>, decode: Decoder): Result {
    if |raw| < 8 then Err(TooShort) else Ended(raw, ReadFrom(raw[8..], [], map[], decode))
  }

  predicate IsSuffix(t: seq<byte>, s: seq<byte>) {
    |t| <= |s| && s[|s| - |t|..] == t
  }

  lemma SuffixOfDrop(t: seq<byte>, s: seq<byte>, n: nat)
    requires IsSuffix(t, Drop(s, n))
    ensures IsSuffix(t, s)
  {
  }

  lemma DropIsSuffix(s: seq<byte>, n: nat)
    ensures IsSuffix(Drop(s, n), s)
  {
  }

  /** What is read as the document is the end of the input. */
  lemma {:induction false} DocumentIsSuffix(s: seq<byte>, lastName: seq<byte>, meta: map<string, string>, decode: Decoder)
    ensures (var read := ReadFrom(s, lastName, meta, decode);
             read.Attributes? ==> IsSuffix(read.document, s))
    decreases |s|
  {
    hide Noted, BigEndian, IsSuffix, Drop, Slice;
    if s == [] {
      DropIsSuffix(s, 0);
    } else if s[0] == TAG_END_OF_ATTRIBUTES {
      DropIsSuffix(s, 1);
    } else if IsDelimiter(s[0]) {
      DocumentIsSuffix(Drop(s, 1), lastName, meta, decode);
      Back(s, 1, lastName, meta, decode);
    } else if |s| >= 3 {
      var at := 3 + BigEndian(Slice(s, 1, 3));
      var name := if at == 3 then lastName else Slice(s, 3, at);
      if |s| >= at + 2 {
        var end := at + 2 + BigEndian(Slice(s, at, at + 2));
        var noted := Noted(meta, name, Slice(s, at + 2, end), decode);
        DocumentIsSuffix(Drop(s, end), name, noted, decode);
        Back(s, end, name, noted, decode);
      }
    }
  }

  lemma Back(s: seq<byte>, n: nat, lastName: seq<byte>, meta: map<string, string>, decode: Decoder)
    requires (var read := ReadFrom(Drop(s, n), lastName, meta, decode);
              read.Attributes? ==> IsSuffix(read.document, Drop(s, n)))
    ensures (var read := ReadFrom(Drop(s, n), lastName, meta, decode);
             read.Attributes? ==> IsSuffix(read.document, s))
  {
    hide ReadFrom, Drop, IsSuffix;
    var read := ReadFrom(Drop(s, n), lastName, meta, decode);
    if read.Attributes? {
      SuffixOfDrop(read.document, s, n);
    }
  }

  // One attribute or delimiter read by position.
  function ReadAt(raw: seq<byte>, pos: nat, lastName: seq<byte>, meta: map<string, string>, decode: Decoder): Attributes
    requires pos < |raw|
  {
    if raw[pos] == TAG_END_OF_ATTRIBUTES then Attributes(meta, Drop(raw, pos + 1))
    else if IsDelimiter(raw[pos]) then ReadFrom(Drop(raw, pos + 1), lastName, meta, decode)
    else if pos + 3 > |raw| then Broken(TruncatedName)
    else
      var at := pos + 3 + BigEndian(Slice(raw, pos + 1, pos + 3));
      var name := if at == pos + 3 then lastName else Slice(raw, pos + 3, at);
      if at + 2 > |raw| then Broken(TruncatedValue)
      else
        var end := at + 2 + BigEndian(Slice(raw, at, at + 2));
        ReadFrom(Drop(raw, end), name, Noted(meta, name, Slice(raw, at + 2, end), decode), decode)
  }

  lemma DropHead(raw: seq<byte>, pos: nat)
    requires pos < |raw|
    ensures Drop(raw, pos) != [] && Drop(raw, pos)[0] == raw[pos]
  {
  }

  lemma ReadByPosition(raw: seq<byte>, pos: nat, lastName: seq<byte>, meta: map<string, string>, decode: Decoder)
    requires pos < |raw|
    ensures ReadFrom(Drop(raw, pos), lastName, meta, decode) == ReadAt(raw, pos, lastName, meta, decode)
  {
    hide Noted, BigEndian, Drop, Slice, IsDelimiter;
    var s := Drop(raw, pos);
    DropHead(raw, pos);
    DropDrop(raw, pos, 1);
    if !IsDelimiter(s[0]) && |s| >= 3 {
      SliceOfDrop(raw, pos, 1, 3);
      var n := BigEndian(Slice(s, 1, 3));
      SliceOfDrop(raw, pos, 3, 3 + n);
      SliceOfDrop(raw, pos, 3 + n, 3 + n + 2);
      var v := BigEndian(Slice(s, 3 + n, 3 + n + 2));
      SliceOfDrop(raw, pos, 3 + n + 2, 3 + n + 2 + v);
      DropDrop(raw, pos, 3 + n + 2 + v);
    }
  }

  method ParseIppRequest(raw: seq<byte>, decode: Decoder) returns (r: Result)
    ensures r == Parsed(raw, decode)
    ensures r.Ok? ==> IsSuffix(r.request.document, raw)
  {
    hide BigEndian, INTERESTING, Slice, Drop, ReadFrom;
    if |raw| < 8 {
      return Err(TooShort);
    }
    var operationId, requestId := BigEndian(raw[2..4]), BigEndian(raw[4..8]);
    ghost var whole := ReadFrom(raw[8..], [], map[], decode);
    DocumentIsSuffix(raw[8..], [], map[], decode);
    WholeDrop(raw, 8);
    var pos: nat, lastName: seq<byte>, meta: map<string, string> := 8, [], map[];
    while pos < |raw|
      invariant pos >= 8
      invariant ReadFrom(Drop(raw, pos), lastName, meta, decode) == whole
    {
      ReadByPosition(raw, pos, lastName, meta, decode);
      var tag := raw[pos];
      pos := pos + 1;
      if IsDelimiter(tag) {
        if tag == TAG_END_OF_ATTRIBUTES {
          return Ok(Request(operationId, requestId, meta, Drop(raw, pos)));
        }
        continue;
      }
      if pos + 2 > |raw| {
        return Err(TruncatedName);
      }
      var nameLength := BigEndian(Slice(raw, pos, pos + 2));
      pos := pos + 2;
      var name;
      if nameLength == 0 {
        name := lastName;
      } else {
        name := Slice(raw, pos, pos + nameLength);
        pos := pos + nameLength;
        lastName := name;
      }
      if pos + 2 > |raw| {
        return Err(TruncatedValue);
      }
      var valueLength := BigEndian(Slice(raw, pos, pos + 2));
      pos := pos + 2;
      var value := Slice(raw, pos, pos + valueLength);
      pos := pos + valueLength;
      if decode(name) in INTERESTING {
        meta := meta[decode(name) := decode(value)];
      }
    }
    NothingLeft(raw, pos, lastName, meta, decode);
    r := Ok(Request(operationId, requestId, meta, Drop(raw, pos)));
  }

  lemma WholeDrop(s: seq<byte>, n: nat)
    requires n <= |s|
    ensures Drop(s, n) == s[n..]
  {
  }

  lemma NothingLeft(raw: seq<byte>, pos: nat, lastName: seq<byte>, meta: map<string, string>, decode: Decoder)
    requires pos >= |raw|
    ensures Drop(raw, pos) == [] && ReadFrom(Drop(raw, pos), lastName, meta, decode) == Attributes(meta, [])
  {
  }

  // ----- Writing attributes -----

  /** What encodes text. */
  type Encoder = string -> seq<byte>

  /** The values of one attribute, encoded. */
  datatype ValueSet = ValueSet(tag: byte, name: string, values: seq<seq<byte>>)

  /** Attributes after a delimiter other than the end tag. */
  datatype Group = Group(tag: byte, sets: seq<ValueSet>)

  /** A value with its name, or with no name when it continues the attribute before it. */
  function WrittenValue(tag: byte, name: seq<byte>, value: seq<byte>): seq<byte>
    requires |name| < 65536 && |value| < 65536
  {
    [tag] + Short(|name|) + name + Short(|value|) + value
  }

  predicate AllShort(values: seq<seq<byte>>) {
    forall i :: 0 <= i < |values| ==> |values[i]| < 65536
  }

  function WrittenMore(tag: byte, values: seq<seq<byte>>): seq<byte>
    requires AllShort(values)
  {
    if values == [] then [] else WrittenValue(tag, [], values[0]) + WrittenMore(tag, values[1..])
  }

  function WrittenSet(s: ValueSet, encode: Encoder): seq<byte>
    requires AllShort(s.values) && (s.values == [] || |encode(s.name)| < 65536)
  {
    if s.values == [] then [] else
      WrittenValue(s.tag, encode(s.name), s.values[0]) + WrittenMore(s.tag, s.values[1..])
  }

  /** Some length does not fit its two bytes. */
  datatype Written = TooLong | Bytes(bytes: seq<byte>)

  method WriteAttribute(tag: byte, name: string, value: seq<byte>, encode: Encoder) returns (w: Written)
    ensures (w == if |encode(name)| < 65536 && |value| < 65536 then Bytes(WrittenSet(ValueSet(tag, name, [value]), encode))
                  else TooLong)
  {
    var nameBytes := encode(name);
    if |nameBytes| >= 65536 || |value| >= 65536 {
      return TooLong;
    }
    OneValue(tag, name, value, encode);
    w := Bytes([tag] + Short(|nameBytes|) + nameBytes + Short(|value|) + value);
  }

  lemma OneValue(tag: byte, name: string, value: seq<byte>, encode: Encoder)
    requires |encode(name)| < 65536 && |value| < 65536
    ensures WrittenSet(ValueSet(tag, name, [value]), encode) == WrittenValue(tag, encode(name), value)
  {
    assert [value][1..] == [];
  }

  lemma {:induction false} MoreAppended(tag: byte, values: seq<seq<byte>>, value: seq<byte>)
    requires AllShort(values) && |value| < 65536
    ensures WrittenMore(tag, values + [value]) == WrittenMore(tag, values) + WrittenValue(tag, [], value)
    decreases |values|
  {
    hide WrittenValue;
    if values == [] {
      assert ([] + [value])[1..] == [];
    } else {
      assert (values + [value])[1..] == values[1..] + [value];
      MoreAppended(tag, values[1..], value);
    }
  }

  lemma SetAppended(s: ValueSet, value: seq<byte>, encode: Encoder)
    requires s.values != [] && AllShort(s.values) && |value| < 65536 && |encode(s.name)| < 65536
    ensures (WrittenSet(s.(values := s.values + [value]), encode)
             == WrittenSet(s, encode) + WrittenValue(s.tag, [], value))
  {
    hide WrittenValue;
    assert (s.values + [value])[1..] == s.values[1..] + [value];
    MoreAppended(s.tag, s.values[1..], value);
  }

  /** Writes the values of an attribute: the first with the name, the others without. */
  method WriteSet(tag: byte, name: string, values: seq<string>, encode: Encoder) returns (w: Written)
    ensures (var encoded := seq(|values|, i requires 0 <= i < |values| => encode(values[i]));
             w == if AllShort(encoded) && (values == [] || |encode(name)| < 65536)
                  then Bytes(WrittenSet(ValueSet(tag, name, encoded), encode)) else TooLong)
  {
    hide WrittenSet, WrittenValue;
    ghost var encoded := seq(|values|, i requires 0 <= i < |values| => encode(values[i]));
    var out := [];
    NoValues(tag, name, encode);
    for i := 0 to |values|
      invariant AllShort(encoded[..i]) && (i == 0 || |encode(name)| < 65536)
      invariant out == WrittenSet(ValueSet(tag, name, encoded[..i]), encode)
    {
      var value := encode(values[i]);
      assert encoded[i] == value && encoded[..i + 1] == encoded[..i] + [value];
      if i == 0 {
        var attribute := WriteAttribute(tag, name, value, encode);
        if attribute.TooLong? {
          return TooLong;
        }
        assert encoded[..i + 1] == [value];
        out := out + attribute.bytes;
      } else {
        if |value| >= 65536 {
          return TooLong;
        }
        SetAppended(ValueSet(tag, name, encoded[..i]), value, encode);
        NamelessValue(tag, value);
        out := out + ([tag] + Short(0) + Short(|value|) + value);
      }
    }
    assert encoded[..|values|] == encoded;
    w := Bytes(out);
  }

  lemma NoValues(tag: byte, name: string, encode: Encoder)
    ensures WrittenSet(ValueSet(tag, name, []), encode) == []
  {
  }

  lemma NamelessValue(tag: byte, value: seq<byte>)
    requires |value| < 65536
    ensures [tag] + Short(0) + Short(|value|) + value == WrittenValue(tag, [], value)
  {
  }

  // ----- Reading back what was written -----

  lemma SliceOfMiddle(a: seq<byte>, b: seq<byte>, c: seq<byte>)
    ensures Slice(a + b + c, |a|, |a| + |b|) == b && Drop(a + b, |a|) == b
  {
    assert Drop(a + b + c, |a|) == b + c;
  }

  /** One value, with or without a name. */
  lemma ReadValue(tag: byte, name: seq<byte>, value: seq<byte>, rest: seq<byte>, lastName: seq<byte>,
                  meta: map<string, string>, decode: Decoder)
    requires !IsDelimiter(tag) && |name| < 65536 && |value| < 65536
    ensures (var owner := if name == [] then lastName else name;
             ReadFrom(WrittenValue(tag, name, value) + rest, lastName, meta, decode)
             == ReadFrom(rest, owner, Noted(meta, owner, value, decode), decode))
  {
    hide Noted, BigEndian, Drop, Slice, Short;
    var s := WrittenValue(tag, name, value) + rest;
    var n, v := Short(|name|), Short(|value|);
    ShortRead(|name|);
    ShortRead(|value|);
    assert s == [tag] + n + (name + v + value + rest);
    SliceOfMiddle([tag], n, name + v + value + rest);
    assert s == ([tag] + n) + name + (v + value + rest);
    SliceOfMiddle([tag] + n, name, v + value + rest);
    assert s == ([tag] + n + name) + v + (value + rest);
    SliceOfMiddle([tag] + n + name, v, value + rest);
    assert s == ([tag] + n + name + v) + value + rest;
    SliceOfMiddle([tag] + n + name + v, value, rest);
    assert s == ([tag] + n + name + v + value) + rest;
    SliceOfMiddle([tag] + n + name + v + value, rest, []);
  }

  type Pair = (string, seq<byte>)

  /** What an interesting attribute ends up as: the last value it was given. */
  function LastValue(pairs: seq<Pair>, name: string): Option<seq<byte>> {
    if pairs == [] then None
    else if pairs[|pairs| - 1].0 == name then Some(pairs[|pairs| - 1].1)
    else LastValue(pairs[..|pairs| - 1], name)
  }

  function NotedPairs(meta: map<string, string>, pairs: seq<Pair>, decode: Decoder): map<string, string>
    decreases |pairs|
  {
    if pairs == [] then meta
    else
      var (name, value) := pairs[0];
      NotedPairs(if name in INTERESTING then meta[name := decode(value)] else meta, pairs[1..], decode)
  }

  lemma {:induction false} NotedConcat(meta: map<string, string>, a: seq<Pair>, b: seq<Pair>, decode: Decoder)
    ensures NotedPairs(meta, a + b, decode) == NotedPairs(NotedPairs(meta, a, decode), b, decode)
    decreases |a|
  {
    hide INTERESTING;
    if a == [] {
      assert a + b == b;
    } else {
      var (name, value) := a[0];
      assert (a + b)[0] == a[0] && (a + b)[1..] == a[1..] + b;
      NotedConcat(if name in INTERESTING then meta[name := decode(value)] else meta, a[1..], b, decode);
    }
  }

  lemma NotedLast(meta: map<string, string>, pairs: seq<Pair>, pair: Pair, decode: Decoder)
    ensures (NotedPairs(meta, pairs + [pair], decode)
             == if pair.0 in INTERESTING then NotedPairs(meta, pairs, decode)[pair.0 := decode(pair.1)]
                else NotedPairs(meta, pairs, decode))
  {
    hide INTERESTING;
    NotedConcat(meta, pairs, [pair], decode);
    assert [pair][1..] == [];
  }

  lemma InterestingNames()
    ensures INTERESTING == {"document-format", "document-name", "job-name", "job-id", "job-uri", "printer-uri",
                            "requesting-user-name", "which-jobs", "compression"}
  {
  }

  /** The metadata holds the last value of every interesting name that was given one, and no more. */
  lemma {:induction false} LastValueWins(pairs: seq<Pair>, name: string, decode: Decoder)
    ensures name in NotedPairs(map[], pairs, decode) <==>
              LastValue(pairs, name).Some?
              && name in {"document-format", "document-name", "job-name", "job-id", "job-uri", "printer-uri",
                          "requesting-user-name", "which-jobs", "compression"}
    ensures (name in NotedPairs(map[], pairs, decode)
             ==> NotedPairs(map[], pairs, decode)[name] == decode(LastValue(pairs, name).value))
    decreases |pairs|
  {
    InterestingNames();
    hide INTERESTING;
    if pairs != [] {
      var front, last := pairs[..|pairs| - 1], pairs[|pairs| - 1];
      assert pairs == front + [last];
      NotedLast(map[], front, last, decode);
      LastValueWins(front, name, decode);
    }
  }

  // ----- Whole requests -----

  function SetPairs(s: ValueSet): seq<Pair> {
    seq(|s.values|, i requires 0 <= i < |s.values| => (s.name, s.values[i]))
  }

  function SetsPairs(sets: seq<ValueSet>): seq<Pair> {
    if sets == [] then [] else SetPairs(sets[0]) + SetsPairs(sets[1..])
  }

  function GroupsPairs(groups: seq<Group>): seq<Pair> {
    if groups == [] then [] else SetsPairs(groups[0].sets) + GroupsPairs(groups[1..])
  }

  /** A set the writers can write, under a name that survives encoding. */
  predicate Writable(s: ValueSet, encode: Encoder, decode: Decoder) {
    && (s.tag == 0 || s.tag > 5) && AllShort(s.values)
    && 0 < |encode(s.name)| < 65536 && decode(encode(s.name)) == s.name
  }

  predicate AllWritable(sets: seq<ValueSet>, encode: Encoder, decode: Decoder) {
    forall i :: 0 <= i < |sets| ==> Writable(sets[i], encode, decode)
  }

  function WrittenSets(sets: seq<ValueSet>, encode: Encoder, ghost decode: Decoder): seq<byte>
    requires AllWritable(sets, encode, decode)
  {
    if sets == [] then [] else WrittenSet(sets[0], encode) + WrittenSets(sets[1..], encode, decode)
  }

  predicate GoodGroups(groups: seq<Group>, encode: Encoder, decode: Decoder) {
    forall i :: 0 <= i < |groups| ==>
      && groups[i].tag in {1, 2, 4, 5}
      && AllWritable(groups[i].sets, encode, decode)
  }

  function WrittenGroups(groups: seq<Group>, encode: Encoder, ghost decode: Decoder): seq<byte>
    requires GoodGroups(groups, encode, decode)
  {
    if groups == [] then [] else
      [groups[0].tag] + WrittenSets(groups[0].sets, encode, decode) + WrittenGroups(groups[1..], encode, decode)
  }

  lemma {:induction false} ReadMore(tag: byte, name: string, nameBytes: seq<byte>, values: seq<seq<byte>>,
                                    rest: seq<byte>, meta: map<string, string>, decode: Decoder)
    requires !IsDelimiter(tag) && AllShort(values) && decode(nameBytes) == name
    ensures (ReadFrom(WrittenMore(tag, values) + rest, nameBytes, meta, decode)
             == ReadFrom(rest, nameBytes, NotedPairs(meta, SetPairs(ValueSet(tag, name, values)), decode), decode))
    decreases |values|
  {
    hide INTERESTING, ReadFrom, IsDelimiter, WrittenValue;
    if values == [] {
      assert WrittenMore(tag, values) + rest == rest;
    } else {
      var more := WrittenMore(tag, values[1..]) + rest;
      assert WrittenMore(tag, values) + rest == WrittenValue(tag, [], values[0]) + more;
      ReadValue(tag, [], values[0], more, nameBytes, meta, decode);
      ReadMore(tag, name, nameBytes, values[1..], rest, Noted(meta, nameBytes, values[0], decode), decode);
      assert SetPairs(ValueSet(tag, name, values))[1..] == SetPairs(ValueSet(tag, name, values[1..]));
    }
  }

  /** A written set read back: every value is noted under the set's name. */
  lemma ReadSet(s: ValueSet, rest: seq<byte>, lastName: seq<byte>, meta: map<string, string>, encode: Encoder, decode: Decoder)
    requires Writable(s, encode, decode)
    ensures (ReadFrom(WrittenSet(s, encode) + rest, lastName, meta, decode)
             == ReadFrom(rest, if s.values == [] then lastName else encode(s.name),
                         NotedPairs(meta, SetPairs(s), decode), decode))
  {
    hide INTERESTING, ReadFrom, IsDelimiter, WrittenValue;
    if s.values == [] {
      assert WrittenSet(s, encode) + rest == rest;
    } else {
      var more := WrittenMore(s.tag, s.values[1..]) + rest;
      assert WrittenSet(s, encode) + rest == WrittenValue(s.tag, encode(s.name), s.values[0]) + more;
      ValueTag(s.tag);
      ReadValue(s.tag, encode(s.name), s.values[0], more, lastName, meta, decode);
      ReadMore(s.tag, s.name, encode(s.name), s.values[1..], rest, Noted(meta, encode(s.name), s.values[0], decode), decode);
      assert SetPairs(s)[1..] == SetPairs(s.(values := s.values[1..]));
    }
  }

  function LastNameOf(lastName: seq<byte>, sets: seq<ValueSet>, encode: Encoder): seq<byte>
    decreases |sets|
  {
    if sets == [] then lastName
    else LastNameOf(if sets[0].values == [] then lastName else encode(sets[0].name), sets[1..], encode)
  }

  lemma {:induction false} ReadSets(sets: seq<ValueSet>, rest: seq<byte>, lastName: seq<byte>, meta: map<string, string>,
                                    encode: Encoder, decode: Decoder)
    requires AllWritable(sets, encode, decode)
    ensures (ReadFrom(WrittenSets(sets, encode, decode) + rest, lastName, meta, decode)
             == ReadFrom(rest, LastNameOf(lastName, sets, encode), NotedPairs(meta, SetsPairs(sets), decode), decode))
    decreases |sets|
  {
    hide INTERESTING, ReadFrom, WrittenSet, SetPairs, NotedPairs, IsDelimiter;
    if sets == [] {
      assert WrittenSets(sets, encode, decode) + rest == rest;
      NotedNothing(meta, decode);
    } else {
      var more := WrittenSets(sets[1..], encode, decode) + rest;
      assert WrittenSets(sets, encode, decode) + rest == WrittenSet(sets[0], encode) + more;
      ReadSet(sets[0], more, lastName, meta, encode, decode);
      ReadSets(sets[1..], rest, if sets[0].values == [] then lastName else encode(sets[0].name),
               NotedPairs(meta, SetPairs(sets[0]), decode), encode, decode);
      NotedConcat(meta, SetPairs(sets[0]), SetsPairs(sets[1..]), decode);
    }
  }

  lemma NotedNothing(meta: map<string, string>, decode: Decoder)
    ensures NotedPairs(meta, [], decode) == meta
  {
  }

  lemma ReadDelimiter(tag: byte, rest: seq<byte>, lastName: seq<byte>, meta: map<string, string>, decode: Decoder)
    requires IsDelimiter(tag)
    ensures (ReadFrom([tag] + rest, lastName, meta, decode)
             == if tag == TAG_END_OF_ATTRIBUTES then Attributes(meta, rest) else ReadFrom(rest, lastName, meta, decode))
  {
    assert Drop([tag] + rest, 1) == rest;
  }

  lemma {:induction false} ReadGroups(groups: seq<Group>, document: seq<byte>, lastName: seq<byte>,
                                      meta: map<string, string>, encode: Encoder, decode: Decoder)
    requires GoodGroups(groups, encode, decode)
    ensures (ReadFrom(WrittenGroups(groups, encode, decode) + [TAG_END_OF_ATTRIBUTES] + document, lastName, meta, decode)
             == Attributes(NotedPairs(meta, GroupsPairs(groups), decode), document))
    decreases |groups|
  {
    hide INTERESTING, ReadFrom, WrittenSets, SetsPairs, NotedPairs, AllWritable, IsDelimiter;
    var end := [TAG_END_OF_ATTRIBUTES] + document;
    if groups == [] {
      assert WrittenGroups(groups, encode, decode) + [TAG_END_OF_ATTRIBUTES] + document == end;
      EndIsDelimiter();
      ReadDelimiter(TAG_END_OF_ATTRIBUTES, document, lastName, meta, decode);
      NotedNothing(meta, decode);
    } else {
      var g := groups[0];
      var more := WrittenGroups(groups[1..], encode, decode) + [TAG_END_OF_ATTRIBUTES] + document;
      var inside := WrittenSets(g.sets, encode, decode) + more;
      assert WrittenGroups(groups, encode, decode) + [TAG_END_OF_ATTRIBUTES] + document == [g.tag] + inside;
      ReadDelimiter(g.tag, inside, lastName, meta, decode);
      ReadSets(g.sets, more, lastName, meta, encode, decode);
      ReadGroups(groups[1..], document, LastNameOf(lastName, g.sets, encode),
                 NotedPairs(meta, SetsPairs(g.sets), decode), encode, decode);
      NotedConcat(meta, SetsPairs(g.sets), GroupsPairs(groups[1..]), decode);
    }
  }

  lemma ValueTag(tag: byte)
    ensures IsDelimiter(tag) <==> tag != 0 && tag <= 5
  {
  }

  lemma EndIsDelimiter()
    ensures IsDelimiter(TAG_END_OF_ATTRIBUTES)
  {
  }

  /** The four bytes of a request id. */
  function Long(n: nat): (s: seq<byte>)
    requires n < 0x1_0000_0000
    ensures |s| == 4
  {
    Short(n / 65536) + Short(n % 65536)
  }

  lemma LongRead(n: nat)
    requires n < 0x1_0000_0000
    ensures BigEndian(Long(n)) == n
  {
    var high, low := Short(n / 65536), Short(n % 65536);
    ShortRead(n / 65536);
    var s := Long(n);
    assert s[..3] == high + [low[0]] && s[..3][..2] == high;
    assert BigEndian(s[..3]) == 256 * BigEndian(high) + low[0];
  }

  function Header(version: (byte, byte), operationId: nat, requestId: nat): (s: seq<byte>)
    requires operationId < 65536 && requestId < 0x1_0000_0000
    ensures |s| == 8
  {
    [version.0, version.1] + Short(operationId) + Long(requestId)
  }

  /**
   * A request written from a header, groups of attributes, the end tag and a document: the parser
   * finds the ids, the interesting values and exactly the document.
   */
  lemma ParsesWhatIsWritten(version: (byte, byte), operationId: nat, requestId: nat, groups: seq<Group>,
                            document: seq<byte>, encode: Encoder, decode: Decoder)
    requires operationId < 65536 && requestId < 0x1_0000_0000 && GoodGroups(groups, encode, decode)
    ensures (Parsed(Header(version, operationId, requestId) + WrittenGroups(groups, encode, decode)
                    + [TAG_END_OF_ATTRIBUTES] + document, decode)
             == Ok(Request(operationId, requestId, NotedPairs(map[], GroupsPairs(groups), decode), document)))
  {
    hide INTERESTING, ReadFrom, WrittenGroups, GroupsPairs, NotedPairs, GoodGroups, BigEndian, Short, Long;
    var header := Header(version, operationId, requestId);
    var body := WrittenGroups(groups, encode, decode) + [TAG_END_OF_ATTRIBUTES] + document;
    var raw := header + WrittenGroups(groups, encode, decode) + [TAG_END_OF_ATTRIBUTES] + document;
    assert raw == header + body;
    assert raw[8..] == body && raw[2..4] == Short(operationId) && raw[4..8] == Long(requestId);
    ShortRead(operationId);
    LongRead(requestId);
    ReadGroups(groups, document, [], map[], encode, decode);
  }
}
