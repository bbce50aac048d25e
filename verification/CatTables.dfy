/** The tables of the cat APIs, http.go: column names and rows of cells, and what a decoder gets of them. */
module CatTables {
  import opened Options
  import opened Utf8

  /** The cells of a row; None is null. */
  type Row = seq<Option<Text>>

  predicate Wide(headers: seq<Text>, cells: seq<Row>) { forall i :: 0 <= i < |cells| ==> |cells[i]| <= |headers| }

  datatype Member = Member(name: seq<Byte>, value: Option<seq<Byte>>)

  function BytesOf(v: Option<Text>): Option<seq<Byte>> {
    match v
    case None => None
    case Some(s) => Some(Bytes(s))
  }

  /** The members of a row from column j on. */
  function MembersOf(headers: seq<Text>, row: Row, j: nat): (ms: seq<Member>)
    requires j <= |row| <= |headers|
    ensures |ms| == |row| - j
    decreases |row| - j
  {
    if j == |row| then []
    else [Member(Bytes(headers[j]), BytesOf(row[j]))] + MembersOf(headers, row, j + 1)
  }

  function RowsOf(headers: seq<Text>, cells: seq<Row>, i: nat): (rows: seq<seq<Member>>)
    requires i <= |cells| && Wide(headers, cells)
    ensures |rows| == |cells| - i
    decreases |cells| - i
  {
    if i == |cells| then [] else [MembersOf(headers, cells[i], 0)] + RowsOf(headers, cells, i + 1)
  }

  // ---------------------------------------------------------------- printing and reading

  datatype Read<T> = Read(value: T, rest: seq<Byte>)

  /** Big-endian numbers. */
  function Then(high: nat, low: nat): nat { high * 0x100 + low }

  lemma RowSplits(b: seq<Byte>, mark: Byte, members: seq<Byte>, rest: seq<Byte>)
    ensures b + ([mark] + (members + rest)) == b + [mark] + members + rest
  {
  }

  lemma MemberSplits(b: seq<Byte>, name: seq<Byte>, value: seq<Byte>, members: seq<Byte>, rest: seq<Byte>)
    ensures b + (name + (value + members)) + rest == b + name + value + members + rest
  {
  }
}
