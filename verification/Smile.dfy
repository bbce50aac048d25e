/**
 * The Smile form of a cat table, catSmile in http.go, and a decoder that rebuilds the table of
 * shared names as the format describes it: short names are added, the table starts over when it has
 * 1024 names, long names are not shared.
 */
module Smile {
  import opened CatTables
  import opened Lists
  import opened Options
  import opened Utf8

  /** The names that were written and their numbers. */
  type Seen = map<Text, nat>

  const TABLE_SIZE := 1024

  // ---------------------------------------------------------------- the printer

  predicate PlainAscii(s: Text) { |Bytes(s)| == Units(s) }

  /** A name that is not shared yet, with its bytes. */
  function NewName(name: Text): seq<Byte>
    requires name != []
  {
    var n := |Bytes(name)|;
    if PlainAscii(name) && n <= 64 then [0x80 + n - 1] + Bytes(name)
    else if !PlainAscii(name) && n <= 56 then (LengthsTell(name); NotAscii(name); [0xc0 + n - 2] + Bytes(name))
    else [0x34] + Bytes(name) + [0xfc]
  }

  function Key(name: Text, seen: Seen): seq<Byte> {
    if name == [] then [0x20]
    else if name in seen && seen[name] < 64 then [0x40 + seen[name]]
    else if name in seen then [(0x30 + seen[name] / 0x100) % 0x100, seen[name] % 0x100]
    else NewName(name)
  }

  /** The names after a key was written. */
  function SeenAfter(name: Text, seen: Seen): Seen {
    if name == [] || name in seen then seen
    else
      var table := if |seen| == TABLE_SIZE then map[] else seen;
      table[name := |table|]
  }

  function Value(v: Option<Text>): seq<Byte> {
    match v
    case None => [0x21]
    case Some(s) =>
      if s == [] then [0x20]
      else
        var n := |Bytes(s)|;
        if PlainAscii(s) && n <= 64 then [0x3f + n] + Bytes(s)
        else if !PlainAscii(s) && Units(s) <= 64 && n <= 64 then [0x7e + n] + Bytes(s)
        else if PlainAscii(s) then [0xe0] + Bytes(s) + [0xfc]
        else [0xe4] + Bytes(s) + [0xfc]
  }

  /** The members of a row from column j on, and the end of the object. */
  function MembersFrom(headers: seq<Text>, row: Row, j: nat, seen: Seen): seq<Byte>
    requires j <= |row| <= |headers|
    decreases |row| - j
  {
    if j == |row| then [0xfb]
    else Key(headers[j], seen) + (Value(row[j]) + MembersFrom(headers, row, j + 1, SeenAfter(headers[j], seen)))
  }

  function SeenAfterRow(headers: seq<Text>, row: Row, j: nat, seen: Seen): Seen
    requires j <= |row| <= |headers|
    decreases |row| - j
  {
    if j == |row| then seen else SeenAfterRow(headers, row, j + 1, SeenAfter(headers[j], seen))
  }

  function RowsFrom(headers: seq<Text>, cells: seq<Row>, i: nat, seen: Seen): seq<Byte>
    requires i <= |cells| && Wide(headers, cells)
    decreases |cells| - i
  {
    if i == |cells| then [0xf9]
    else
      [0xfa] + (MembersFrom(headers, cells[i], 0, seen) + RowsFrom(headers, cells, i + 1, SeenAfterRow(headers, cells[i], 0, seen)))
  }

  /** ":)\n", shared names and raw binary, start of array. */
  const HEADER: seq<Byte> := [0x3a, 0x29, 0x0a, 0x05, 0xf8]

  function Printed(headers: seq<Text>, cells: seq<Row>): seq<Byte>
    requires Wide(headers, cells)
  {
    HEADER + RowsFrom(headers, cells, 0, map[])
  }

  method CatSmile(headers: seq<Text>, cells: seq<Row>) returns (b: seq<Byte>)
    requires Wide(headers, cells)
    ensures b == Printed(headers, cells)
  {
    hide Key, Value;
    b := HEADER;
    var seen: Seen := map[];
    for i := 0 to |cells|
      invariant b + RowsFrom(headers, cells, i, seen) == Printed(headers, cells)
    {
      var row := cells[i];
      ghost var rest := RowsFrom(headers, cells, i + 1, SeenAfterRow(headers, row, 0, seen));
      RowSplits(b, 0xfa, MembersFrom(headers, row, 0, seen), rest);
      ghost var after := SeenAfterRow(headers, row, 0, seen);
      b := b + [0xfa];
      for j := 0 to |row|
        invariant b + MembersFrom(headers, row, j, seen) + rest == Printed(headers, cells)
        invariant SeenAfterRow(headers, row, j, seen) == after
      {
        var name := headers[j];
        MemberSplits(b, Key(name, seen), Value(row[j]), MembersFrom(headers, row, j + 1, SeenAfter(name, seen)), rest);
        b := b + Key(name, seen);
        if name != [] && name !in seen {
          if |seen| == TABLE_SIZE {
            seen := map[];
          }
          seen := seen[name := |seen|];
        }
        b := b + Value(row[j]);
      }
      b := b + [0xfb];
    }
    b := b + [0xf9];
  }

  // ---------------------------------------------------------------- the decoder

  /** n bytes after the first one. */
  function Take(b: seq<Byte>, n: nat): (r: Option<Read<seq<Byte>>>)
    ensures r.Some? ==> |r.value.rest| < |b|
  {
    if 1 + n <= |b| then Some(Read(b[1..1 + n], b[1 + n..])) else None
  }

  /** Bytes up to the end mark 0xfc. */
  function UpToMark(b: seq<Byte>): (r: Option<Read<seq<Byte>>>)
    ensures r.Some? ==> |r.value.rest| < |b|
  {
    if b == [] then None
    else if b[0] == 0xfc then Some(Read([], b[1..]))
    else
      match UpToMark(b[1..])
      case None => None
      case Some(t) => Some(Read([b[0]] + t.value, t.rest))
  }

  /** The names that can be referred to; a full table starts over. */
  type Table = seq<seq<Byte>>

  function Shared(table: Table, name: seq<Byte>): Table {
    (if |table| == TABLE_SIZE then [] else table) + [name]
  }

  datatype KeyRead = KeyRead(name: seq<Byte>, rest: seq<Byte>, table: Table)

  function Referred(table: Table, i: nat, rest: seq<Byte>): Option<KeyRead> {
    if i < |table| then Some(KeyRead(table[i], rest, table)) else None
  }

  function AddedName(table: Table, r: Option<Read<seq<Byte>>>): Option<KeyRead> {
    match r
    case None => None
    case Some(t) => Some(KeyRead(t.value, t.rest, Shared(table, t.value)))
  }

  function ReadKey(b: seq<Byte>, table: Table): (r: Option<KeyRead>)
    ensures r.Some? ==> |r.value.rest| < |b|
  {
    if b == [] then None
    else
      var t := b[0];
      if t == 0x20 then Some(KeyRead([], b[1..], table))
      else if 0x30 <= t <= 0x33 then
        if |b| < 2 then None else Referred(table, Then(t - 0x30, b[1]), b[2..])
      else if t == 0x34 then
        match UpToMark(b[1..])
        case None => None
        case Some(name) => Some(KeyRead(name.value, name.rest, table))
      else if 0x40 <= t <= 0x7f then Referred(table, t - 0x40, b[1..])
      else if 0x80 <= t <= 0xbf then AddedName(table, Take(b, t - 0x80 + 1))
      else if 0xc0 <= t <= 0xf7 then AddedName(table, Take(b, t - 0xc0 + 2))
      else None
  }

  function Present(r: Option<Read<seq<Byte>>>): (v: Option<Read<Option<seq<Byte>>>>) {
    match r
    case None => None
    case Some(t) => Some(Read(Some(t.value), t.rest))
  }

  function ReadValue(b: seq<Byte>): (r: Option<Read<Option<seq<Byte>>>>)
    ensures r.Some? ==> |r.value.rest| < |b|
  {
    if b == [] then None
    else
      var t := b[0];
      if t == 0x20 then Some(Read(Some([]), b[1..]))
      else if t == 0x21 then Some(Read(None, b[1..]))
      else if 0x40 <= t <= 0x7f then Present(Take(b, t - 0x40 + 1))
      else if 0x80 <= t <= 0xbf then Present(Take(b, t - 0x80 + 2))
      else if t == 0xe0 || t == 0xe4 then Present(UpToMark(b[1..]))
      else None
  }

  datatype RowRead = RowRead(members: seq<Member>, rest: seq<Byte>, table: Table)

  function ReadMembers(b: seq<Byte>, table: Table): (r: Option<RowRead>)
    ensures r.Some? ==> |r.value.rest| < |b|
    decreases |b|
  {
    if b == [] then None
    else if b[0] == 0xfb then Some(RowRead([], b[1..], table))
    else
      match ReadKey(b, table)
      case None => None
      case Some(key) =>
        match ReadValue(key.rest)
        case None => None
        case Some(value) =>
          match ReadMembers(value.rest, key.table)
          case None => None
          case Some(more) => Some(RowRead([Member(key.name, value.value)] + more.members, more.rest, more.table))
  }

  function ReadRows(b: seq<Byte>, table: Table): (r: Option<Read<seq<seq<Member>>>>)
    decreases |b|
  {
    if b == [] then None
    else if b[0] == 0xf9 then Some(Read([], b[1..]))
    else if b[0] != 0xfa then None
    else
      match ReadMembers(b[1..], table)
      case None => None
      case Some(row) =>
        match ReadRows(row.rest, row.table)
        case None => None
        case Some(more) => Some(Read([row.members] + more.value, more.rest))
  }

  /** What the fourth byte says: the version, and whether names are shared, values are shared and bytes may be raw. */
  datatype Features = Features(version: nat, sharedNames: bool, sharedValues: bool, rawBinary: bool)

  /** ":)" and a line feed, and the features. */
  function ReadHeader(b: seq<Byte>): Option<Features> {
    if |b| < 4 || b[0] != ':' as int || b[1] != ')' as int || b[2] != '\n' as int then None
    else Some(Features(b[3] / 16, b[3] % 2 == 1, b[3] / 2 % 2 == 1, b[3] / 4 % 2 == 1))
  }

  /** Documents of version 0 with shared names, without shared values, that hold an array. */
  function Decode(b: seq<Byte>): (r: Option<seq<seq<Member>>>) {
    var features := ReadHeader(b);
    if features == None || features.value.version != 0 || !features.value.sharedNames || features.value.sharedValues then None
    else if |b| < 5 || b[4] != 0xf8 then None
    else
      match ReadRows(b[5..], [])
      case None => None
      case Some(rows) => if rows.rest == [] then Some(rows.value) else None
  }

  // ---------------------------------------------------------------- keys and values are read back

  /** A name that the format shares. */
  predicate Short(name: Text) { if PlainAscii(name) then |Bytes(name)| <= 64 else |Bytes(name)| <= 56 }

  /** The decoder has the names under the numbers of the printer. */
  ghost predicate Agree(seen: Seen, table: Table) {
    && |table| == |seen| <= TABLE_SIZE
    && forall name :: name in seen ==> seen[name] < |table| && table[seen[name]] == Bytes(name)
  }

  lemma TakesBytes(t: Byte, s: seq<Byte>, rest: seq<Byte>)
    ensures Take([t] + s + rest, |s|) == Some(Read(s, rest))
  {
    var b := [t] + s + rest;
    assert b[1..1 + |s|] == s && b[1 + |s|..] == rest;
  }

  lemma {:induction false} MarkFound(s: seq<Byte>, rest: seq<Byte>)
    requires forall i :: 0 <= i < |s| ==> s[i] < 0xf8
    ensures UpToMark(s + [0xfc] + rest) == Some(Read(s, rest))
  {
    var b := s + [0xfc] + rest;
    if s == [] {
      assert b[1..] == rest;
    } else {
      assert b[1..] == s[1..] + [0xfc] + rest;
      MarkFound(s[1..], rest);
      assert [s[0]] + s[1..] == s;
    }
  }

  lemma NewNameReads(name: Text, rest: seq<Byte>, table: Table)
    requires name != [] && Short(name)
    ensures ReadKey(NewName(name) + rest, table) == Some(KeyRead(Bytes(name), rest, Shared(table, Bytes(name))))
    ensures NewName(name) != [] && NewName(name)[0] != 0xfb
  {
    LengthsTell(name);
    var t := NewName(name)[0];
    if !PlainAscii(name) {
      NotAscii(name);
    }
    TakesBytes(t, Bytes(name), rest);
    assert ([t] + Bytes(name) + rest)[0] == t;
  }

  lemma KeyReads(name: Text, seen: Seen, rest: seq<Byte>, table: Table)
    requires Agree(seen, table) && Short(name)
    ensures var after := TableAfter(name, seen, table);
            && ReadKey(Key(name, seen) + rest, table) == Some(KeyRead(Bytes(name), rest, after))
            && Agree(SeenAfter(name, seen), after)
    ensures Key(name, seen) != [] && Key(name, seen)[0] != 0xfb
  {
    if name != [] && name !in seen {
      hide NewName, ReadKey, Short, Shared;
      NewNameReads(name, rest, table);
      SharedAgrees(name, seen, table);
    } else {
      hide ReadKey, Short;
      ReferenceReads(name, seen, rest, table);
    }
  }

  lemma SharedAgrees(name: Text, seen: Seen, table: Table)
    requires Agree(seen, table) && name != [] && name !in seen
    ensures Agree(SeenAfter(name, seen), Shared(table, Bytes(name)))
  {
  }

  lemma ReferenceReads(name: Text, seen: Seen, rest: seq<Byte>, table: Table)
    requires Agree(seen, table) && (name == [] || name in seen)
    ensures ReadKey(Key(name, seen) + rest, table) == Some(KeyRead(Bytes(name), rest, table))
  {
    hide ReadKey;
    if name == [] {
      NoName(rest, table);
    } else if seen[name] < 64 {
      ShortReference(seen[name], rest, table);
    } else {
      LongReference(seen[name], rest, table);
    }
  }

  lemma NoName(rest: seq<Byte>, table: Table)
    ensures ReadKey([0x20] + rest, table) == Some(KeyRead([], rest, table))
  {
    assert ([0x20] + rest)[1..] == rest;
  }

  lemma ShortReference(i: nat, rest: seq<Byte>, table: Table)
    requires i < 64 && i < |table|
    ensures ReadKey([0x40 + i] + rest, table) == Some(KeyRead(table[i], rest, table))
  {
    assert ([0x40 + i] + rest)[1..] == rest;
  }

  lemma LongReference(i: nat, rest: seq<Byte>, table: Table)
    requires 64 <= i < |table| <= TABLE_SIZE
    ensures ReadKey([(0x30 + i / 0x100) % 0x100, i % 0x100] + rest, table) == Some(KeyRead(table[i], rest, table))
  {
    var b := [(0x30 + i / 0x100) % 0x100, i % 0x100] + rest;
    assert b[0] == 0x30 + i / 0x100 && b[1] == i % 0x100 && b[2..] == rest;
    assert Then(i / 0x100, i % 0x100) == i;
  }

  lemma CountedReads(t: Byte, body: seq<Byte>, rest: seq<Byte>)
    requires (0x40 <= t <= 0x7f && |body| == t - 0x3f) || (0x80 <= t <= 0xbf && |body| == t - 0x7e)
    ensures ReadValue([t] + body + rest) == Some(Read(Some(body), rest))
  {
    TakesBytes(t, body, rest);
    assert ([t] + body + rest)[0] == t;
  }

  lemma MarkedReads(t: Byte, body: seq<Byte>, rest: seq<Byte>)
    requires (t == 0xe0 || t == 0xe4) && forall i :: 0 <= i < |body| ==> body[i] < 0xf8
    ensures ReadValue([t] + body + [0xfc] + rest) == Some(Read(Some(body), rest))
  {
    MarkFound(body, rest);
    var b := [t] + body + [0xfc] + rest;
    assert b[0] == t && b[1..] == body + [0xfc] + rest;
  }

  lemma ValueReads(v: Option<Text>, rest: seq<Byte>)
    ensures ReadValue(Value(v) + rest) == Some(Read(BytesOf(v), rest))
  {
    if v.Some? && v.value != [] {
      var s := v.value;
      var n := |Bytes(s)|;
      LengthsTell(s);
      BytesBelow(s);
      if PlainAscii(s) && n <= 64 {
        CountedReads(0x3f + n, Bytes(s), rest);
      } else if !PlainAscii(s) && Units(s) <= 64 && n <= 64 {
        NotAscii(s);
        CountedReads(0x7e + n, Bytes(s), rest);
      } else {
        MarkedReads(if PlainAscii(s) then 0xe0 else 0xe4, Bytes(s), rest);
      }
    } else {
      assert (Value(v) + rest)[1..] == rest;
    }
  }

  // ---------------------------------------------------------------- the round trip

  /** Every printed table says that it shares names, that it does not share values and that bytes may be raw. */
  lemma HeaderReads(headers: seq<Text>, cells: seq<Row>)
    requires Wide(headers, cells)
    ensures ReadHeader(Printed(headers, cells)) == Some(Features(0, true, false, true))
  {
    var b := Printed(headers, cells);
    assert b[..5] == HEADER;
    assert b[0] == HEADER[0] && b[1] == HEADER[1] && b[2] == HEADER[2] && b[3] == HEADER[3];
  }

  lemma MemberFirst(key: seq<Byte>, value: seq<Byte>, members: seq<Byte>, rest: seq<Byte>, table: Table, k: KeyRead, v: Option<seq<Byte>>, more: RowRead)
    requires key != [] && key[0] != 0xfb && k.rest == value + (members + rest)
    requires ReadKey(key + (value + (members + rest)), table) == Some(k)
    requires ReadValue(value + (members + rest)) == Some(Read(v, members + rest))
    requires ReadMembers(members + rest, k.table) == Some(more)
    ensures ReadMembers(key + (value + members) + rest, table) == Some(RowRead([Member(k.name, v)] + more.members, more.rest, more.table))
  {
    hide ReadKey, ReadValue;
    var b := key + (value + (members + rest));
    assert key + (value + members) + rest == b && b[0] == key[0];
  }

  function TableAfter(name: Text, seen: Seen, table: Table): Table {
    if name == [] || name in seen then table else Shared(table, Bytes(name))
  }

  lemma MemberReads(name: Text, seen: Seen, v: Option<Text>, members: seq<Byte>, rest: seq<Byte>, table: Table, ms: seq<Member>, after: Table)
    requires Agree(seen, table) && Short(name)
    requires ReadMembers(members + rest, TableAfter(name, seen, table)) == Some(RowRead(ms, rest, after))
    ensures ReadMembers(Key(name, seen) + (Value(v) + members) + rest, table)
         == Some(RowRead([Member(Bytes(name), BytesOf(v))] + ms, rest, after))
  {
    KeyReads(name, seen, Value(v) + (members + rest), table);
    ValueReads(v, members + rest);
    MemberFirst(Key(name, seen), Value(v), members, rest, table, KeyRead(Bytes(name), Value(v) + (members + rest), TableAfter(name, seen, table)),
                BytesOf(v), RowRead(ms, rest, after));
  }

  lemma EndReads(rest: seq<Byte>, table: Table)
    ensures ReadMembers([0xfb] + rest, table) == Some(RowRead([], rest, table))
  {
    assert ([0xfb] + rest)[1..] == rest;
  }

  predicate AllShort(headers: seq<Text>) { forall k :: 0 <= k < |headers| ==> Short(headers[k]) }

  /** A row is read back, and the tables agree after it. */
  lemma {:induction false} MembersRead(headers: seq<Text>, row: Row, j: nat, seen: Seen, rest: seq<Byte>, table: Table) returns (after: Table)
    requires j <= |row| <= |headers| && Agree(seen, table) && AllShort(headers)
    ensures ReadMembers(MembersFrom(headers, row, j, seen) + rest, table) == Some(RowRead(MembersOf(headers, row, j), rest, after))
    ensures Agree(SeenAfterRow(headers, row, j, seen), after)
    decreases |row| - j
  {
    hide Key, Value, SeenAfter, TableAfter, ReadMembers, Short, Agree, Bytes, BytesOf;
    if j < |row| {
      var name, next := headers[j], j + 1;
      var seen', table' := SeenAfter(name, seen), TableAfter(name, seen, table);
      KeyReads(name, seen, [], table);
      after := MembersRead(headers, row, next, seen', rest, table');
      MemberReads(name, seen, row[j], MembersFrom(headers, row, next, seen'), rest, table, MembersOf(headers, row, next), after);
    } else {
      after := table;
      EndReads(rest, table);
    }
  }

  lemma RowFirst(members: seq<Byte>, rows: seq<Byte>, table: Table, row: RowRead, more: seq<seq<Member>>)
    requires row.rest == rows && ReadMembers(members + rows, table) == Some(row) && ReadRows(rows, row.table) == Some(Read(more, []))
    ensures ReadRows([0xfa] + (members + rows), table) == Some(Read([row.members] + more, []))
  {
    assert ([0xfa] + (members + rows))[1..] == members + rows;
  }

  lemma {:induction false} RowsRead(headers: seq<Text>, cells: seq<Row>, i: nat, seen: Seen, table: Table)
    requires i <= |cells| && Wide(headers, cells) && Agree(seen, table)
    requires AllShort(headers)
    ensures ReadRows(RowsFrom(headers, cells, i, seen), table) == Some(Read(RowsOf(headers, cells, i), []))
    decreases |cells| - i
  {
    if i < |cells| {
      var seen' := SeenAfterRow(headers, cells[i], 0, seen);
      var rest := RowsFrom(headers, cells, i + 1, seen');
      var table' := MembersRead(headers, cells[i], 0, seen, rest, table);
      RowsRead(headers, cells, i + 1, seen', table');
      RowFirst(MembersFrom(headers, cells[i], 0, seen), rest, table, RowRead(MembersOf(headers, cells[i], 0), rest, table'), RowsOf(headers, cells, i + 1));
    } else {
      assert RowsFrom(headers, cells, i, seen)[1..] == [];
    }
  }

  /** Decoding the printed table returns its rows and names when the names are short enough to be shared. */
  lemma RoundTrip(headers: seq<Text>, cells: seq<Row>)
    requires Wide(headers, cells) && AllShort(headers)
    ensures Decode(Printed(headers, cells)) == Some(RowsOf(headers, cells, 0))
  {
    RowsRead(headers, cells, 0, map[], []);
    var b := Printed(headers, cells);
    HeaderReads(headers, cells);
    assert b[4] == 0xf8 && b[5..] == RowsFrom(headers, cells, 0, map[]);
  }

  // ---------------------------------------------------------------- tables with longer names

  ghost predicate FullWidth(headers: seq<Text>, cells: seq<Row>) { forall i :: 0 <= i < |cells| ==> |cells[i]| == |headers| }

  /** The decoder's table after a name that was written out. */
  function Kept(name: Text, table: Table): Table {
    if name != [] && Short(name) then Shared(table, Bytes(name)) else table
  }

  function KeptFrom(headers: seq<Text>, j: nat, table: Table): Table
    requires j <= |headers|
    decreases |headers| - j
  {
    if j == |headers| then table else KeptFrom(headers, j + 1, Kept(headers[j], table))
  }

  lemma LongNameReads(name: Text, rest: seq<Byte>, table: Table)
    requires !Short(name)
    ensures name != [] && NewName(name) == [0x34] + Bytes(name) + [0xfc]
    ensures ReadKey(NewName(name) + rest, table) == Some(KeyRead(Bytes(name), rest, table))
  {
    BytesBelow(name);
    MarkFound(Bytes(name), rest);
    var b := [0x34] + Bytes(name) + [0xfc] + rest;
    assert b[1..] == Bytes(name) + [0xfc] + rest && b[0] == 0x34;
  }

  /** A name that was not written before is read back, short or not. */
  lemma UnseenReads(name: Text, seen: Seen, rest: seq<Byte>, table: Table)
    requires name == [] || name !in seen
    ensures ReadKey(Key(name, seen) + rest, table) == Some(KeyRead(Bytes(name), rest, Kept(name, table)))
    ensures Key(name, seen) != [] && Key(name, seen)[0] != 0xfb
  {
    hide ReadKey, NewName, Short;
    if name == [] {
      NoName(rest, table);
    } else if Short(name) {
      NewNameReads(name, rest, table);
    } else {
      LongNameReads(name, rest, table);
    }
  }

  /** Only names of earlier columns have been written. */
  ghost predicate Earlier(headers: seq<Text>, j: nat, seen: Seen)
    requires j <= |headers|
  {
    forall k :: j <= k < |headers| ==> headers[k] !in seen
  }

  lemma EarlierNext(headers: seq<Text>, j: nat, seen: Seen)
    requires j < |headers| && Distinct(headers) && Earlier(headers, j, seen)
    ensures headers[j] !in seen && Earlier(headers, j + 1, SeenAfter(headers[j], seen))
  {
  }

  /** The first row is read back, whatever its names. */
  lemma {:induction false} FirstRowReads(headers: seq<Text>, row: Row, j: nat, seen: Seen, rest: seq<Byte>, table: Table)
    requires j <= |row| == |headers| && Distinct(headers) && Earlier(headers, j, seen)
    ensures ReadMembers(MembersFrom(headers, row, j, seen) + rest, table)
         == Some(RowRead(MembersOf(headers, row, j), rest, KeptFrom(headers, j, table)))
    decreases |row| - j
  {
    hide Key, Value, Kept, ReadMembers;
    if j < |row| {
      EarlierNext(headers, j, seen);
      hide Earlier, Distinct, SeenAfter, Bytes, BytesOf;
      var name, seen', table' := headers[j], SeenAfter(headers[j], seen), Kept(headers[j], table);
      var members := MembersFrom(headers, row, j + 1, seen');
      FirstRowReads(headers, row, j + 1, seen', rest, table');
      UnseenReads(name, seen, Value(row[j]) + (members + rest), table);
      ValueReads(row[j], members + rest);
      MemberFirst(Key(name, seen), Value(row[j]), members, rest, table, KeyRead(Bytes(name), Value(row[j]) + (members + rest), table'),
                  BytesOf(row[j]), RowRead(MembersOf(headers, row, j + 1), rest, KeptFrom(headers, j + 1, table')));
    } else {
      EndReads(rest, table);
    }
  }

  /**
   * Printer and decoder after the first j columns, the first long name being in column l: they agree on
   * the names before it, and what the decoder has under its number is another name, if anything.
   */
  ghost predicate Parted(headers: seq<Text>, l: nat, j: nat, seen: Seen, table: Table)
    requires l < |headers| && j <= |headers|
  {
    && |table| <= |seen| <= j
    && (forall k :: 0 <= k < j && headers[k] != [] ==> headers[k] in seen && seen[headers[k]] < |seen|)
    && (forall k :: 0 <= k < l && k < j && headers[k] != [] ==>
          seen[headers[k]] < |table| && table[seen[headers[k]]] == Bytes(headers[k]))
    && (j <= l ==> |table| == |seen|)
    && (l < j ==> headers[l] in seen && (seen[headers[l]] < |table| ==> table[seen[headers[l]]] != Bytes(headers[l])))
  }

  lemma {:induction false} PartedNext(headers: seq<Text>, l: nat, j: nat, seen: Seen, table: Table)
    requires l < |headers| && j < |headers| <= TABLE_SIZE && Distinct(headers) && Earlier(headers, j, seen) && headers[l] != []
    requires !Short(headers[l]) && (forall k :: 0 <= k < l ==> Short(headers[k])) && Parted(headers, l, j, seen, table)
    ensures Parted(headers, l, j + 1, SeenAfter(headers[j], seen), Kept(headers[j], table))
    ensures Earlier(headers, j + 1, SeenAfter(headers[j], seen))
  {
    hide Short, Bytes;
    var name := headers[j];
    if name != [] {
      assert seen[name := |seen|] == SeenAfter(name, seen);
      if Short(name) {
        assert Kept(name, table) == table + [Bytes(name)];
        if l < j {
          SameBytes(name, headers[l]);
        }
      }
    }
  }

  lemma SameBytes(a: Text, b: Text)
    ensures Bytes(a) == Bytes(b) ==> a == b
  {
    if Bytes(a) == Bytes(b) {
      BytesInjective(a, b);
    }
  }

  lemma {:induction false} PartedAtEnd(headers: seq<Text>, row: Row, l: nat, j: nat, seen: Seen, table: Table)
    requires l < |headers| == |row| <= TABLE_SIZE && j <= |headers| && Distinct(headers) && Earlier(headers, j, seen) && headers[l] != []
    requires !Short(headers[l]) && (forall k :: 0 <= k < l ==> Short(headers[k])) && Parted(headers, l, j, seen, table)
    ensures Parted(headers, l, |headers|, SeenAfterRow(headers, row, j, seen), KeptFrom(headers, j, table))
    decreases |headers| - j
  {
    hide Short, Parted, SeenAfter, Kept, Earlier;
    if j < |headers| {
      PartedNext(headers, l, j, seen, table);
      PartedAtEnd(headers, row, l, j + 1, SeenAfter(headers[j], seen), Kept(headers[j], table));
    }
  }

  /** What is read for a row has another name, or none, in column l. */
  ghost predicate OtherName(headers: seq<Text>, l: nat, j: nat, r: Option<RowRead>)
    requires j <= l < |headers|
  {
    r.Some? ==> |r.value.members| <= l - j || r.value.members[l - j].name != Bytes(headers[l])
  }

  lemma OtherNameFirst(headers: seq<Text>, l: nat, j: nat, m: Member, r: RowRead)
    requires j < l < |headers| && OtherName(headers, l, j + 1, Some(r))
    ensures OtherName(headers, l, j, Some(RowRead([m] + r.members, r.rest, r.table)))
  {
  }

  /** The second row, from column j up to the first long name. */
  lemma {:induction false} SecondRowReads(headers: seq<Text>, row: Row, l: nat, j: nat, seen: Seen, rest: seq<Byte>, table: Table)
    requires j <= l < |headers| == |row| <= TABLE_SIZE && headers[l] != [] && Parted(headers, l, |headers|, seen, table)
    ensures OtherName(headers, l, j, ReadMembers(MembersFrom(headers, row, j, seen) + rest, table))
    decreases l - j
  {
    hide Key, Value, Bytes, ReadMembers;
    var name := headers[j];
    var members := MembersFrom(headers, row, j + 1, seen);
    var tail := Value(row[j]) + (members + rest);
    assert SeenAfter(name, seen) == seen;
    assert MembersFrom(headers, row, j, seen) + rest == Key(name, seen) + tail;
    if j < l {
      ReferenceIsRight(headers, l, j, seen, tail, table);
      ValueReads(row[j], members + rest);
      SecondRowReads(headers, row, l, j + 1, seen, rest, table);
      StepReads(Key(name, seen), tail, members + rest, table, KeyRead(Bytes(name), tail, table), BytesOf(row[j]));
      var r := ReadMembers(members + rest, table);
      if r.Some? {
        OtherNameFirst(headers, l, j, Member(Bytes(name), BytesOf(row[j])), r.value);
      }
    } else {
      ReferenceIsWrong(headers, l, seen, tail, table);
      FirstNameReads(Key(name, seen), tail, table);
    }
  }

  lemma StepReads(key: seq<Byte>, tail: seq<Byte>, more: seq<Byte>, table: Table, k: KeyRead, v: Option<seq<Byte>>)
    requires key != [] && key[0] != 0xfb && ReadKey(key + tail, table) == Some(k) && k.rest == tail
    requires ReadValue(tail) == Some(Read(v, more))
    ensures var r := ReadMembers(more, k.table);
            ReadMembers(key + tail, table)
            == if r == None then None else Some(RowRead([Member(k.name, v)] + r.value.members, r.value.rest, r.value.table))
  {
    hide ReadKey, ReadValue;
    assert (key + tail)[0] == key[0];
  }

  /** The first member of a row has the name of its key. */
  lemma FirstNameReads(key: seq<Byte>, tail: seq<Byte>, table: Table)
    requires key != [] && key[0] != 0xfb
    ensures var r, k := ReadMembers(key + tail, table), ReadKey(key + tail, table);
            r.Some? ==> k.Some? && |r.value.members| > 0 && r.value.members[0].name == k.value.name
  {
    hide ReadKey, ReadValue;
    assert (key + tail)[0] == key[0];
  }

  lemma ReferenceIsRight(headers: seq<Text>, l: nat, j: nat, seen: Seen, tail: seq<Byte>, table: Table)
    requires j < l < |headers| <= TABLE_SIZE && Parted(headers, l, |headers|, seen, table)
    ensures ReadKey(Key(headers[j], seen) + tail, table) == Some(KeyRead(Bytes(headers[j]), tail, table))
    ensures Key(headers[j], seen) != [] && Key(headers[j], seen)[0] != 0xfb
  {
    hide ReadKey, NewName;
    var name := headers[j];
    if name == [] {
      NoName(tail, table);
    } else if seen[name] < 64 {
      ShortReference(seen[name], tail, table);
    } else {
      LongReference(seen[name], tail, table);
    }
  }

  lemma ReferenceIsWrong(headers: seq<Text>, l: nat, seen: Seen, tail: seq<Byte>, table: Table)
    requires l < |headers| <= TABLE_SIZE && headers[l] != [] && Parted(headers, l, |headers|, seen, table)
    ensures var r := ReadKey(Key(headers[l], seen) + tail, table); r.Some? ==> r.value.name != Bytes(headers[l])
    ensures Key(headers[l], seen) != [] && Key(headers[l], seen)[0] != 0xfb
  {
    hide ReadKey, NewName, Bytes;
    var i := seen[headers[l]];
    if i < |table| {
      if i < 64 {
        ShortReference(i, tail, table);
      } else {
        LongReference(i, tail, table);
      }
    } else {
      NoReference(i, tail, table);
    }
  }

  lemma NoReference(i: nat, tail: seq<Byte>, table: Table)
    requires |table| <= i < TABLE_SIZE
    ensures i < 64 ==> ReadKey([0x40 + i] + tail, table) == None
    ensures i >= 64 ==> ReadKey([(0x30 + i / 0x100) % 0x100, i % 0x100] + tail, table) == None
  {
    if i >= 64 {
      var b := [(0x30 + i / 0x100) % 0x100, i % 0x100] + tail;
      assert b[0] == 0x30 + i / 0x100 && b[1] == i % 0x100;
      assert Then(i / 0x100, i % 0x100) == i;
    }
  }

  /** Whatever is read for a list of rows, its second row is not the one that was printed. */
  lemma SecondRowLost(headers: seq<Text>, cells: seq<Row>, l: nat)
    requires FullWidth(headers, cells) && Distinct(headers) && |cells| > 1 && |headers| <= TABLE_SIZE
    requires l < |headers| && !Short(headers[l]) && forall k :: 0 <= k < l ==> Short(headers[k])
    ensures var r := ReadRows(RowsFrom(headers, cells, 0, map[]), []); r.Some? ==> r.value.value != RowsOf(headers, cells, 0)
  {
    hide ReadRows, ReadMembers, MembersFrom, MembersOf, SeenAfterRow, KeptFrom, Key, Bytes;
    var seen, table := SeenAfterRow(headers, cells[0], 0, map[]), KeptFrom(headers, 0, []);
    var rest, last := RowsFrom(headers, cells, 1, seen), RowsFrom(headers, cells, 2, SeenAfterRow(headers, cells[1], 0, seen));
    var first, second := MembersFrom(headers, cells[0], 0, map[]), MembersFrom(headers, cells[1], 0, seen);
    TwoRows(headers, cells);
    LongNameReads(headers[l], [], []);
    FirstRowReads(headers, cells[0], 0, map[], rest, []);
    PartedAtEnd(headers, cells[0], l, 0, map[], []);
    SecondRowReads(headers, cells[1], l, 0, seen, last, table);
    hide Parted, RowsFrom, RowsOf, FullWidth, Distinct;
    RowsStep(first, rest, []);
    RowsStep(second, last, table);
    NameOfMember(headers, cells[1], 0, l);
  }

  lemma TwoRows(headers: seq<Text>, cells: seq<Row>)
    requires FullWidth(headers, cells) && |cells| > 1
    ensures var seen := SeenAfterRow(headers, cells[0], 0, map[]);
            && RowsFrom(headers, cells, 0, map[]) == [0xfa] + (MembersFrom(headers, cells[0], 0, map[]) + RowsFrom(headers, cells, 1, seen))
            && RowsFrom(headers, cells, 1, seen)
               == [0xfa] + (MembersFrom(headers, cells[1], 0, seen) + RowsFrom(headers, cells, 2, SeenAfterRow(headers, cells[1], 0, seen)))
    ensures |RowsOf(headers, cells, 0)| > 1 && RowsOf(headers, cells, 0)[1] == MembersOf(headers, cells[1], 0)
  {
    hide MembersFrom, MembersOf, SeenAfterRow;
    assert RowsOf(headers, cells, 0) == [MembersOf(headers, cells[0], 0)] + RowsOf(headers, cells, 1);
  }

  lemma RowsStep(members: seq<Byte>, rows: seq<Byte>, table: Table)
    ensures var b, row := [0xfa] + (members + rows), ReadMembers(members + rows, table);
            ReadRows(b, table)
            == if row == None then None
               else
                 var more := ReadRows(row.value.rest, row.value.table);
                 if more == None then None else Some(Read([row.value.members] + more.value.value, more.value.rest))
  {
    hide ReadMembers;
    assert ([0xfa] + (members + rows))[1..] == members + rows;
  }

  lemma {:induction false} NameOfMember(headers: seq<Text>, row: Row, j: nat, l: nat)
    requires j <= l < |row| <= |headers|
    ensures |MembersOf(headers, row, j)| > l - j && MembersOf(headers, row, j)[l - j].name == Bytes(headers[l])
    decreases l - j
  {
    hide Bytes, BytesOf;
    if j < l {
      NameOfMember(headers, row, j + 1, l);
    }
  }

  /** A table of at most one row is read back, whatever its names. */
  lemma OneRowReads(headers: seq<Text>, cells: seq<Row>)
    requires FullWidth(headers, cells) && Distinct(headers) && |cells| <= 1
    ensures Decode(Printed(headers, cells)) == Some(RowsOf(headers, cells, 0))
  {
    hide ReadRows, MembersFrom, MembersOf, KeptFrom, ReadMembers;
    var b := Printed(headers, cells);
    HeaderReads(headers, cells);
    assert b[4] == 0xf8 && b[5..] == RowsFrom(headers, cells, 0, map[]);
    if |cells| == 1 {
      var members, table := MembersFrom(headers, cells[0], 0, map[]), KeptFrom(headers, 0, []);
      OnlyRow(headers, cells);
      FirstRowReads(headers, cells[0], 0, map[], [0xf9], []);
      EndOfRows(table);
      RowFirst(members, [0xf9], [], RowRead(MembersOf(headers, cells[0], 0), [0xf9], table), []);
      assert [MembersOf(headers, cells[0], 0)] + [] == [MembersOf(headers, cells[0], 0)];
    } else {
      EndOfRows([]);
    }
  }

  lemma OnlyRow(headers: seq<Text>, cells: seq<Row>)
    requires FullWidth(headers, cells) && |cells| == 1
    ensures RowsFrom(headers, cells, 0, map[]) == [0xfa] + (MembersFrom(headers, cells[0], 0, map[]) + [0xf9])
    ensures RowsOf(headers, cells, 0) == [MembersOf(headers, cells[0], 0)]
  {
    hide MembersFrom, MembersOf;
    assert RowsOf(headers, cells, 1) == [];
    assert RowsFrom(headers, cells, 1, SeenAfterRow(headers, cells[0], 0, map[])) == [0xf9];
  }

  lemma EndOfRows(table: Table)
    ensures ReadRows([0xf9], table) == Some(Read([], []))
  {
    var b := [0xf9];
    assert b[1..] == [];
  }

  /**
   * A table with different column names, at most as many as can be shared, is read back exactly when
   * all its names are short enough to be shared or it has at most one row.
   */
  lemma DecodesExactly(headers: seq<Text>, cells: seq<Row>)
    requires FullWidth(headers, cells) && Distinct(headers) && |headers| <= TABLE_SIZE
    ensures Decode(Printed(headers, cells)) == Some(RowsOf(headers, cells, 0)) <==> AllShort(headers) || |cells| <= 1
  {
    hide Short, Decode, Printed, RowsOf, ReadRows, RowsFrom;
    if AllShort(headers) {
      RoundTrip(headers, cells);
    } else if |cells| <= 1 {
      OneRowReads(headers, cells);
    } else {
      var l := FirstLong(headers);
      SecondRowLost(headers, cells, l);
      NotDecoded(headers, cells);
    }
  }

  lemma NotDecoded(headers: seq<Text>, cells: seq<Row>)
    requires Wide(headers, cells)
    requires var r := ReadRows(RowsFrom(headers, cells, 0, map[]), []); r.Some? ==> r.value.value != RowsOf(headers, cells, 0)
    ensures Decode(Printed(headers, cells)) != Some(RowsOf(headers, cells, 0))
  {
    hide ReadRows, RowsFrom, RowsOf;
    var b := Printed(headers, cells);
    HeaderReads(headers, cells);
    assert b[4] == 0xf8 && b[5..] == RowsFrom(headers, cells, 0, map[]);
  }

  lemma FirstLong(headers: seq<Text>) returns (l: nat)
    requires !AllShort(headers)
    ensures l < |headers| && !Short(headers[l]) && forall k :: 0 <= k < l ==> Short(headers[k])
  {
    hide Short;
    l := 0;
    while Short(headers[l])
      invariant l < |headers| && forall k :: 0 <= k < l ==> Short(headers[k])
      decreases |headers| - l
    {
      l := l + 1;
    }
  }
}
