/**
 * The CBOR form of a cat table, catCBOR in http.go, and a decoder for the part of CBOR it uses
 * (section 3 of RFC 8949): indefinite-length arrays and maps, definite-length text strings, null.
 */
module Cbor {
  import opened CatTables
  import opened Options
  import opened Utf8

  // ---------------------------------------------------------------- the printer

  function Uint8(n: nat): Byte { n % 0x100 }

  /** A text string; the width of its length follows the number of UTF-16 units, not of bytes. */
  function TextHead(n: nat, chars: nat): (b: seq<Byte>) {
    if chars <= 255 && n <= 23 then [0x60 + n]
    else if chars <= 255 && n <= 0xff then [0x78, n]
    else if chars <= 255 then [0x79, Uint8(n / 0x100), Uint8(n)]
    else [0x7a, Uint8(n / 0x1000000), Uint8(n / 0x10000), Uint8(n / 0x100), Uint8(n)]
  }

  function TextItem(s: Text): seq<Byte> { TextHead(|Bytes(s)|, Units(s)) + Bytes(s) }

  function ValueItem(v: Option<Text>): seq<Byte> {
    match v
    case None => [0xf6]
    case Some(s) => TextItem(s)
  }

  /** The members of a row from column j on, and the end of the map. */
  function MembersFrom(headers: seq<Text>, row: Row, j: nat): seq<Byte>
    requires j <= |row| <= |headers|
    decreases |row| - j
  {
    if j == |row| then [0xff]
    else TextItem(headers[j]) + (ValueItem(row[j]) + MembersFrom(headers, row, j + 1))
  }

  /** The rows from row i on, and the end of the array. */
  function RowsFrom(headers: seq<Text>, cells: seq<Row>, i: nat): seq<Byte>
    requires i <= |cells| && Wide(headers, cells)
    decreases |cells| - i
  {
    if i == |cells| then [0xff]
    else [0xbf] + (MembersFrom(headers, cells[i], 0) + RowsFrom(headers, cells, i + 1))
  }

  function Printed(headers: seq<Text>, cells: seq<Row>): seq<Byte>
    requires Wide(headers, cells)
  {
    [0x9f] + RowsFrom(headers, cells, 0)
  }

  method CatCBOR(headers: seq<Text>, cells: seq<Row>) returns (b: seq<Byte>)
    requires Wide(headers, cells)
    ensures b == Printed(headers, cells)
  {
    b := [0x9f];
    for i := 0 to |cells|
      invariant b + RowsFrom(headers, cells, i) == Printed(headers, cells)
    {
      var row := cells[i];
      ghost var rest := RowsFrom(headers, cells, i + 1);
      RowSplits(b, 0xbf, MembersFrom(headers, row, 0), rest);
      b := b + [0xbf];
      for j := 0 to |row|
        invariant b + MembersFrom(headers, row, j) + rest == Printed(headers, cells)
      {
        MemberSplits(b, TextItem(headers[j]), ValueItem(row[j]), MembersFrom(headers, row, j + 1), rest);
        b := b + TextItem(headers[j]);
        if row[j] == None {
          b := b + [0xf6];
        } else {
          b := b + TextItem(row[j].value);
        }
      }
      b := b + [0xff];
    }
    b := b + [0xff];
  }

  // ---------------------------------------------------------------- the decoder

  /** The length of a text string and of its head. */
  function ReadHead(b: seq<Byte>): (r: Option<(nat, nat)>) {
    if |b| >= 1 && 0x60 <= b[0] <= 0x77 then Some((b[0] - 0x60, 1))
    else if |b| >= 2 && b[0] == 0x78 then Some((b[1], 2))
    else if |b| >= 3 && b[0] == 0x79 then Some((Then(b[1], b[2]), 3))
    else if |b| >= 5 && b[0] == 0x7a then Some((Then(Then(Then(b[1], b[2]), b[3]), b[4]), 5))
    else None
  }

  function ReadText(b: seq<Byte>): (r: Option<Read<seq<Byte>>>)
    ensures r.Some? ==> |r.value.rest| < |b|
  {
    match ReadHead(b)
    case None => None
    case Some((n, head)) => if head + n <= |b| && head > 0 then Some(Read(b[head..head + n], b[head + n..])) else None
  }

  function ReadValue(b: seq<Byte>): (r: Option<Read<Option<seq<Byte>>>>)
    ensures r.Some? ==> |r.value.rest| < |b|
  {
    if b != [] && b[0] == 0xf6 then Some(Read(None, b[1..]))
    else
      match ReadText(b)
      case None => None
      case Some(t) => Some(Read(Some(t.value), t.rest))
  }

  function ReadMembers(b: seq<Byte>): (r: Option<Read<seq<Member>>>)
    ensures r.Some? ==> |r.value.rest| < |b|
    decreases |b|
  {
    if b == [] then None
    else if b[0] == 0xff then Some(Read([], b[1..]))
    else
      match ReadText(b)
      case None => None
      case Some(name) =>
        match ReadValue(name.rest)
        case None => None
        case Some(value) =>
          match ReadMembers(value.rest)
          case None => None
          case Some(more) => Some(Read([Member(name.value, value.value)] + more.value, more.rest))
  }

  function ReadRows(b: seq<Byte>): (r: Option<Read<seq<seq<Member>>>>)
    decreases |b|
  {
    if b == [] then None
    else if b[0] == 0xff then Some(Read([], b[1..]))
    else if b[0] != 0xbf then None
    else
      match ReadMembers(b[1..])
      case None => None
      case Some(row) =>
        match ReadRows(row.rest)
        case None => None
        case Some(more) => Some(Read([row.value] + more.value, more.rest))
  }

  function Decode(b: seq<Byte>): (r: Option<seq<seq<Member>>>) {
    if b == [] || b[0] != 0x9f then None
    else
      match ReadRows(b[1..])
      case None => None
      case Some(rows) => if rows.rest == [] then Some(rows.value) else None
  }

  // ---------------------------------------------------------------- the round trip

  /** A length that fits the four bytes of the largest head. */
  predicate Fits(s: Text) { |Bytes(s)| < 0x1_0000_0000 }

  predicate AllFit(headers: seq<Text>, cells: seq<Row>) {
    && (forall j :: 0 <= j < |headers| ==> Fits(headers[j]))
    && forall i, j :: 0 <= i < |cells| && 0 <= j < |cells[i]| && cells[i][j].Some? ==> Fits(cells[i][j].value)
  }

  lemma FourBytes(n: nat)
    requires n < 0x1_0000_0000
    ensures Then(Then(Then(Uint8(n / 0x1000000), Uint8(n / 0x10000)), Uint8(n / 0x100)), Uint8(n)) == n
  {
    hide Then, Uint8;
    Quotients(n);
    OneByte(n / 0x1000000);
    ByteSplits(n / 0x10000);
    ByteSplits(n / 0x100);
    ByteSplits(n);
  }

  lemma Quotients(n: nat)
    requires n < 0x1_0000_0000
    ensures n / 0x1000000 == n / 0x10000 / 0x100 < 0x100 && n / 0x10000 == n / 0x100 / 0x100
  {
  }

  lemma OneByte(n: nat)
    requires n < 0x100
    ensures Uint8(n) == n
  {
  }

  lemma ByteSplits(n: nat)
    ensures Then(n / 0x100, Uint8(n)) == n
  {
  }

  lemma TwoBytes(n: nat)
    requires n < 0x1_0000
    ensures Then(Uint8(n / 0x100), Uint8(n)) == n
  {
  }

  lemma HeadReads(n: nat, chars: nat, rest: seq<Byte>)
    requires n < 0x1_0000_0000 && (chars <= 255 ==> n < 0x10000)
    ensures ReadHead(TextHead(n, chars) + rest) == Some((n, |TextHead(n, chars)|))
    ensures TextHead(n, chars) != [] && 0x60 <= TextHead(n, chars)[0] <= 0x7a
  {
    hide Then, Uint8;
    var head := TextHead(n, chars);
    var b := head + rest;
    assert forall k :: 0 <= k < |head| ==> b[k] == head[k];
    if chars > 255 {
      FourBytes(n);
    } else if n > 0xff {
      TwoBytes(n);
    }
  }

  /** The head of a text of at most 255 units is the shortest that says its length. */
  lemma HeadIsShortest(n: nat, chars: nat, head: seq<Byte>)
    requires chars <= 255 && n < 0x10000 && ReadHead(head) == Some((n, |head|))
    ensures |TextHead(n, chars)| <= |head|
  {
  }

  lemma HeadThenBody(head: seq<Byte>, body: seq<Byte>, rest: seq<Byte>)
    requires head != [] && ReadHead(head + (body + rest)) == Some((|body|, |head|))
    ensures ReadText(head + body + rest) == Some(Read(body, rest))
  {
    var b := head + body + rest;
    assert b == head + (body + rest);
    assert b[|head|..|head| + |body|] == body && b[|head| + |body|..] == rest;
  }

  lemma TextReads(s: Text, rest: seq<Byte>)
    requires Fits(s)
    ensures ReadText(TextItem(s) + rest) == Some(Read(Bytes(s), rest))
    ensures TextItem(s) != [] && 0x60 <= TextItem(s)[0] <= 0x7a
  {
    LengthsTell(s);
    HeadReads(|Bytes(s)|, Units(s), Bytes(s) + rest);
    HeadThenBody(TextHead(|Bytes(s)|, Units(s)), Bytes(s), rest);
  }

  lemma ValueReads(v: Option<Text>, rest: seq<Byte>)
    requires v.Some? ==> Fits(v.value)
    ensures ReadValue(ValueItem(v) + rest) == Some(Read(BytesOf(v), rest))
  {
    if v.Some? {
      TextReads(v.value, rest);
      assert (ValueItem(v) + rest)[0] == ValueItem(v)[0];
    }
  }

  lemma MemberFirst(nameItem: seq<Byte>, valueItem: seq<Byte>, members: seq<Byte>, rest: seq<Byte>, name: seq<Byte>, value: Option<seq<Byte>>, ms: seq<Member>)
    requires nameItem != [] && nameItem[0] != 0xff
    requires ReadText(nameItem + (valueItem + (members + rest))) == Some(Read(name, valueItem + (members + rest)))
    requires ReadValue(valueItem + (members + rest)) == Some(Read(value, members + rest))
    requires ReadMembers(members + rest) == Some(Read(ms, rest))
    ensures ReadMembers(nameItem + (valueItem + members) + rest) == Some(Read([Member(name, value)] + ms, rest))
  {
    var b := nameItem + (valueItem + (members + rest));
    assert nameItem + (valueItem + members) + rest == b && b[0] == nameItem[0];
  }

  lemma MemberReads(name: Text, value: Option<Text>, members: seq<Byte>, rest: seq<Byte>, ms: seq<Member>)
    requires Fits(name) && (value.Some? ==> Fits(value.value)) && ReadMembers(members + rest) == Some(Read(ms, rest))
    ensures ReadMembers(TextItem(name) + (ValueItem(value) + members) + rest)
         == Some(Read([Member(Bytes(name), BytesOf(value))] + ms, rest))
  {
    TextReads(name, ValueItem(value) + (members + rest));
    ValueReads(value, members + rest);
    MemberFirst(TextItem(name), ValueItem(value), members, rest, Bytes(name), BytesOf(value), ms);
  }

  lemma EndReads(rest: seq<Byte>)
    ensures ReadMembers([0xff] + rest) == Some(Read([], rest))
  {
    assert ([0xff] + rest)[1..] == rest;
  }

  predicate RowFits(headers: seq<Text>, row: Row) {
    && |row| <= |headers|
    && forall k :: 0 <= k < |row| ==> Fits(headers[k]) && (row[k].Some? ==> Fits(row[k].value))
  }

  lemma {:induction false} MembersRead(headers: seq<Text>, row: Row, j: nat, rest: seq<Byte>)
    requires RowFits(headers, row) && j <= |row|
    ensures ReadMembers(MembersFrom(headers, row, j) + rest) == Some(Read(MembersOf(headers, row, j), rest))
    decreases |row| - j
  {
    hide TextItem, ValueItem, ReadMembers, Fits;
    if j < |row| {
      var next := j + 1;
      var members, ms := MembersFrom(headers, row, next), MembersOf(headers, row, next);
      MembersRead(headers, row, next, rest);
      MemberReads(headers[j], row[j], members, rest, ms);
    } else {
      EndReads(rest);
    }
  }

  lemma RowFirst(members: seq<Byte>, rows: seq<Byte>, row: seq<Member>, more: seq<seq<Member>>)
    requires ReadMembers(members + rows) == Some(Read(row, rows)) && ReadRows(rows) == Some(Read(more, []))
    ensures ReadRows([0xbf] + (members + rows)) == Some(Read([row] + more, []))
  {
    assert ([0xbf] + (members + rows))[1..] == members + rows;
  }

  lemma {:induction false} RowsRead(headers: seq<Text>, cells: seq<Row>, i: nat)
    requires i <= |cells| && Wide(headers, cells) && AllFit(headers, cells)
    ensures ReadRows(RowsFrom(headers, cells, i)) == Some(Read(RowsOf(headers, cells, i), []))
    decreases |cells| - i
  {
    if i < |cells| {
      MembersRead(headers, cells[i], 0, RowsFrom(headers, cells, i + 1));
      RowsRead(headers, cells, i + 1);
      RowFirst(MembersFrom(headers, cells[i], 0), RowsFrom(headers, cells, i + 1), MembersOf(headers, cells[i], 0), RowsOf(headers, cells, i + 1));
    } else {
      assert RowsFrom(headers, cells, i)[1..] == [];
    }
  }

  /** Decoding the printed table returns its rows and names. */
  lemma RoundTrip(headers: seq<Text>, cells: seq<Row>)
    requires Wide(headers, cells) && AllFit(headers, cells)
    ensures Decode(Printed(headers, cells)) == Some(RowsOf(headers, cells, 0))
  {
    RowsRead(headers, cells, 0);
    assert Printed(headers, cells)[1..] == RowsFrom(headers, cells, 0);
  }
}
