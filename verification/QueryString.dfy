/**
 * Query strings: parseQueryString and decodeURLComponent of http_params.go, and the escaping that
 * engineQuery in http.go uses to write parameters back (percent-encoding, section 2.1 of RFC 3986,
 * with `+` for a space). Strings are bytes.
 */
module QueryString {
  import opened Options
  import opened Utf8

  type Str = seq<Byte>

  const AMPERSAND: Byte := 0x26
  const SEMICOLON: Byte := 0x3b
  const EQUALS: Byte := 0x3d
  const PLUS: Byte := 0x2b
  const SPACE: Byte := 0x20
  const PERCENT: Byte := 0x25

  // ---------------------------------------------------------------- decoding

  /** unhexNibble, -1 for other bytes. */
  function Unhex(c: Byte): (n: int)
    ensures -1 <= n < 16
  {
    if 0x30 <= c <= 0x39 then c as int - 0x30
    else if 0x61 <= c <= 0x66 then c as int - 0x61 + 10
    else if 0x41 <= c <= 0x46 then c as int - 0x41 + 10
    else -1
  }

  function Prepend(c: Byte, r: Option<Str>): Option<Str> {
    match r
    case None => None
    case Some(s) => Some([c] + s)
  }

  function Nibbles(hi: int, lo: int): Byte
    requires 0 <= hi < 16 && 0 <= lo < 16
  {
    hi * 16 + lo
  }

  /** decodeURLComponent; None when an escape sequence is incomplete or wrong. */
  function Decode(s: Str, plusAsSpace: bool): (r: Option<Str>)
    decreases |s|
  {
    if s == [] then Some([])
    else if s[0] == PLUS then Prepend(if plusAsSpace then SPACE else PLUS, Decode(s[1..], plusAsSpace))
    else if s[0] != PERCENT then Prepend(s[0], Decode(s[1..], plusAsSpace))
    else if |s| == 1 then None
    else if s[1] == PERCENT then Prepend(PERCENT, Decode(s[2..], plusAsSpace))
    else if |s| == 2 || Unhex(s[1]) < 0 || Unhex(s[2]) < 0 then None
    else Prepend(Nibbles(Unhex(s[1]), Unhex(s[2])), Decode(s[3..], plusAsSpace))
  }

  function Append(buf: Str, r: Option<Str>): Option<Str> {
    match r
    case None => None
    case Some(s) => Some(buf + s)
  }

  lemma AppendPrepend(buf: Str, c: Byte, r: Option<Str>)
    ensures Append(buf, Prepend(c, r)) == Append(buf + [c], r)
  {
    if r.Some? {
      assert buf + ([c] + r.value) == buf + [c] + r.value;
    }
  }

  lemma AppendNothing(r: Option<Str>)
    ensures Append([], r) == r
  {
    if r.Some? {
      assert [] + r.value == r.value;
    }
  }

  lemma {:induction false} NothingToDecode(s: Str, plusAsSpace: bool)
    requires PERCENT !in s && PLUS !in s
    ensures Decode(s, plusAsSpace) == Some(s)
  {
    if s != [] {
      NothingToDecode(s[1..], plusAsSpace);
      assert s == [s[0]] + s[1..];
    }
  }

  method DecodeURLComponent(s: Str, plusAsSpace: bool) returns (r: Option<Str>)
    ensures r == Decode(s, plusAsSpace)
  {
    if PERCENT !in s && PLUS !in s {
      NothingToDecode(s, plusAsSpace);
      return Some(s);
    }
    var buf: Str := [];
    var i := 0;
    assert s[0..] == s;
    AppendNothing(Decode(s, plusAsSpace));
    while i < |s|
      invariant i <= |s| && Decode(s, plusAsSpace) == Append(buf, Decode(s[i..], plusAsSpace))
    {
      var rest := s[i..];
      assert rest[1..] == s[i + 1..];
      var c := s[i];
      if c == PLUS {
        AppendPrepend(buf, if plusAsSpace then SPACE else PLUS, Decode(s[i + 1..], plusAsSpace));
        buf := buf + [if plusAsSpace then SPACE else PLUS];
      } else if c == PERCENT {
        if i == |s| - 1 {
          return None;
        }
        i := i + 1;
        assert rest[1] == s[i] && rest[2..] == s[i + 1..];
        if s[i] == PERCENT {
          AppendPrepend(buf, PERCENT, Decode(s[i + 1..], plusAsSpace));
          buf := buf + [PERCENT];
          i := i + 1;
          continue;
        }
        if i == |s| - 1 {
          return None;
        }
        var hi, lo := Unhex(s[i]), Unhex(s[i + 1]);
        i := i + 1;
        assert rest[2] == s[i] && rest[3..] == s[i + 1..];
        if hi < 0 || lo < 0 {
          return None;
        }
        AppendPrepend(buf, Nibbles(hi, lo), Decode(s[i + 1..], plusAsSpace));
        buf := buf + [Nibbles(hi, lo)];
      } else {
        AppendPrepend(buf, c, Decode(s[i + 1..], plusAsSpace));
        buf := buf + [c];
      }
      i := i + 1;
    }
    assert s[i..] == [] && buf + [] == buf;
    return Some(buf);
  }

  // ---------------------------------------------------------------- what a query string means

  predicate Separator(c: Byte) { c == AMPERSAND || c == SEMICOLON }

  /** The first position that satisfies a predicate, or the length. */
  function First(s: Str, p: Byte -> bool): (k: nat)
    ensures k <= |s| && (k < |s| ==> p(s[k])) && forall i :: 0 <= i < k ==> !p(s[i])
  {
    if s == [] || p(s[0]) then 0
    else
      var k := First(s[1..], p);
      assert forall i :: 0 < i < k + 1 ==> s[i] == s[1..][i - 1];
      k + 1
  }

  /** A piece between separators, without the equals signs at its start, as raw name and value. */
  function ParamOf(piece: Str): (r: Option<(Str, Str)>)
    decreases |piece|
  {
    if piece == [] then None
    else if piece[0] == EQUALS then ParamOf(piece[1..])
    else
      var k := First(piece, c => c == EQUALS);
      Some((piece[..k], if k < |piece| then piece[k + 1..] else []))
  }

  type Params = map<Str, Str>

  /** failed: some escape sequence was wrong. */
  datatype Acc = Acc(params: Params, failed: bool)

  function Decoded(s: Str): Str {
    OrEmpty(Decode(s, true))
  }

  function OrEmpty(d: Option<Str>): Str { if d.Some? then d.value else [] }

  function Bad(s: Str): bool { Decode(s, true) == None }

  function With(acc: Acc, name: Str, value: Str): Acc {
    Acc(acc.params[Decoded(name) := Decoded(value)], acc.failed || Bad(name) || Bad(value))
  }

  /** A later parameter replaces an earlier one of the same name. */
  function Apply(acc: Acc, piece: Str): Acc {
    match ParamOf(piece)
    case None => acc
    case Some((name, value)) => With(acc, name, value)
  }

  function Fold(raw: Str, acc: Acc): Acc
    decreases |raw|
  {
    var k := First(raw, Separator);
    if k == |raw| then Apply(acc, raw) else Fold(raw[k + 1..], Apply(acc, raw[..k]))
  }

  /** The parameters of a query string, or None for an error. */
  function Parse(raw: Str): Option<Params> {
    var acc := Fold(raw, Acc(map[], false));
    if acc.failed then None else Some(acc.params)
  }

  // ---------------------------------------------------------------- digits and separators

  const LOWER_DIGITS := "0123456789abcdef"
  const UPPER_DIGITS := "0123456789ABCDEF"

  /** The byte is the d-th hexadecimal digit, in lower or upper case. */
  predicate Digit(c: Byte, d: nat) {
    d < 16 && (c == LOWER_DIGITS[d] as int || c == UPPER_DIGITS[d] as int)
  }

  lemma DigitValue(c: Byte, d: nat)
    requires d < 16
    ensures Unhex(c) == d <==> Digit(c, d)
  {
    hide Digit;
    assert Digit(c, d) <==> Unhex(c) == d by {
      DigitAt(c, d);
    }
  }

  lemma DigitAt(c: Byte, d: nat)
    requires d < 16
    ensures Digit(c, d) <==> if d < 10 then c == 0x30 + d else c == 0x57 + d || c == 0x37 + d
  {
    assert LOWER_DIGITS[d] as int == if d < 10 then 0x30 + d else 0x57 + d;
    assert UPPER_DIGITS[d] as int == if d < 10 then 0x30 + d else 0x37 + d;
  }

  /** An escape of two digits of either case is the byte that they write. */
  lemma EscapeMeans(hi: Byte, lo: Byte, d: nat, e: nat, rest: Str, plusAsSpace: bool)
    requires Digit(hi, d) && Digit(lo, e)
    ensures Decode([PERCENT, hi, lo] + rest, plusAsSpace) == Prepend(16 * d + e, Decode(rest, plusAsSpace))
  {
    DigitValue(hi, d);
    DigitValue(lo, e);
    DigitAt(hi, d);
    var s := [PERCENT, hi, lo] + rest;
    assert s[1] == hi && s[2] == lo && s[3..] == rest;
  }

  /** Without a digit in one of its two places, an escape other than `%%` fails. */
  lemma EscapeFails(hi: Byte, lo: Byte, rest: Str, plusAsSpace: bool)
    requires hi != PERCENT && !(exists d, e :: Digit(hi, d) && Digit(lo, e))
    ensures Decode([PERCENT, hi, lo] + rest, plusAsSpace) == None
  {
    var s := [PERCENT, hi, lo] + rest;
    assert s[1] == hi && s[2] == lo;
    if Unhex(hi) >= 0 && Unhex(lo) >= 0 {
      DigitValue(hi, Unhex(hi));
      DigitValue(lo, Unhex(lo));
    }
  }

  /** The parameters on both sides of `&` or `;` are read one after the other. */
  lemma {:induction false} SeparatorSplits(a: Str, c: Byte, b: Str, acc: Acc)
    requires c == '&' as int || c == ';' as int
    ensures Fold(a + [c] + b, acc) == Fold(b, Fold(a, acc))
    decreases |a|
  {
    hide Apply;
    var raw, k := a + [c] + b, First(a, Separator);
    assert raw[|a|] == c && raw[|a| + 1..] == b;
    FirstIs(raw, Separator, k);
    if k == |a| {
      assert raw[..k] == a;
    } else {
      assert raw[..k] == a[..k] && raw[k + 1..] == a[k + 1..] + [c] + b;
      SeparatorSplits(a[k + 1..], c, b, Apply(acc, a[..k]));
    }
  }

  // ---------------------------------------------------------------- the loop

  /** The piece that starts at `start` has been read up to i; with a name, that is between `at` and pos. */
  ghost predicate Pending(raw: Str, start: nat, at: nat, pos: nat, i: nat, name: Str, haveName: bool, p: Params, failed: bool, acc: Acc) {
    && start <= at <= pos <= i <= |raw|
    && (forall k :: start <= k < i ==> !Separator(raw[k]))
    && (forall k :: start <= k < at ==> raw[k] == EQUALS)
    && p == acc.params
    && if !haveName then at == pos && failed == acc.failed && forall k :: pos <= k < i ==> raw[k] != EQUALS
       else
         && at < pos - 1 && raw[pos - 1] == EQUALS && (forall k :: at <= k < pos - 1 ==> raw[k] != EQUALS)
         && name == Decoded(raw[at..pos - 1]) && failed == (acc.failed || Bad(raw[at..pos - 1]))
  }

  lemma {:induction false} SkipEquals(piece: Str, n: nat)
    requires n <= |piece| && forall k :: 0 <= k < n ==> piece[k] == EQUALS
    ensures ParamOf(piece) == ParamOf(piece[n..])
  {
    if n > 0 {
      SkipEquals(piece[1..], n - 1);
      assert piece[1..][n - 1..] == piece[n..];
    } else {
      assert piece[0..] == piece;
    }
  }

  lemma FirstIs(s: Str, p: Byte -> bool, k: nat)
    requires k <= |s| && (k < |s| ==> p(s[k])) && forall i :: 0 <= i < k ==> !p(s[i])
    ensures First(s, p) == k
  {
  }

  lemma NameOnly(piece: Str)
    requires forall k :: 0 <= k < |piece| ==> piece[k] != EQUALS
    ensures ParamOf(piece) == if piece == [] then None else Some((piece, []))
  {
    if piece != [] {
      FirstIs(piece, c => c == EQUALS, |piece|);
      assert piece[..|piece|] == piece;
    }
  }

  lemma NameAndValue(piece: Str, k: nat)
    requires 0 < k < |piece| && piece[k] == EQUALS && forall i :: 0 <= i < k ==> piece[i] != EQUALS
    ensures ParamOf(piece) == Some((piece[..k], piece[k + 1..]))
  {
    FirstIs(piece, c => c == EQUALS, k);
  }

  /** What the piece adds when it ends at i. */
  function Finished(raw: Str, pos: nat, i: nat, name: Str, haveName: bool, p: Params, failed: bool): Acc
    requires pos <= i <= |raw|
  {
    if haveName then Acc(p[name := Decoded(raw[pos..i])], failed || Bad(raw[pos..i]))
    else if pos != i then Acc(p[Decoded(raw[pos..i]) := []], failed || Bad(raw[pos..i]))
    else Acc(p, failed)
  }

  lemma PieceEnds(raw: Str, start: nat, at: nat, pos: nat, i: nat, name: Str, haveName: bool, p: Params, failed: bool, acc: Acc)
    requires Pending(raw, start, at, pos, i, name, haveName, p, failed, acc)
    ensures Finished(raw, pos, i, name, haveName, p, failed) == Apply(acc, raw[start..i])
  {
    hide Decode, Decoded, Bad, ParamOf;
    var piece := raw[start..i];
    SkipEquals(piece, at - start);
    assert piece[at - start..] == raw[at..i];
    if haveName {
      NameAndValue(raw[at..i], pos - 1 - at);
      assert raw[at..i][..pos - 1 - at] == raw[at..pos - 1] && raw[at..i][pos - at..] == raw[pos..i];
    } else {
      NameOnly(raw[pos..i]);
      NothingDecodes();
    }
  }

  lemma NextPiece(raw: Str, start: nat, i: nat, acc: Acc)
    requires start <= i < |raw| && Separator(raw[i]) && forall k :: start <= k < i ==> !Separator(raw[k])
    ensures Fold(raw[start..], acc) == Fold(raw[i + 1..], Apply(acc, raw[start..i]))
  {
    var rest := raw[start..];
    FirstIs(rest, Separator, i - start);
    assert rest[i - start + 1..] == raw[i + 1..] && rest[..i - start] == raw[start..i];
  }

  lemma LastPiece(raw: Str, start: nat, acc: Acc)
    requires start <= |raw| && forall k :: start <= k < |raw| ==> !Separator(raw[k])
    ensures Fold(raw[start..], acc) == Apply(acc, raw[start..|raw|])
  {
    FirstIs(raw[start..], Separator, |raw| - start);
    assert raw[start..|raw|] == raw[start..];
  }

  /** The closure of parseQueryString that remembers a failure. */
  method DecodeText(s: Str, before: bool) returns (text: Str, failed: bool)
    ensures text == Decoded(s) && failed == (before || Bad(s))
  {
    var d := DecodeURLComponent(s, true);
    return OrEmpty(d), before || d == None;
  }

  method ParseQueryString(raw: Str) returns (r: Option<Params>)
    ensures r == Parse(raw)
  {
    hide Decode, Decoded, Bad, ParamOf, Fold, Apply;
    var p: Params := map[];
    var failed := false;
    var name: Str := [];
    var haveName, pos := false, 0;
    ghost var start, at, acc := 0, 0, Acc(map[], false);
    assert raw[0..] == raw;
    for i := 0 to |raw|
      invariant Pending(raw, start, at, pos, i, name, haveName, p, failed, acc)
      invariant Fold(raw, Acc(map[], false)) == Fold(raw[start..], acc)
    {
      var c := raw[i];
      if c == EQUALS && !haveName {
        if pos != i {
          name, failed := DecodeText(raw[pos..i], failed);
          haveName := true;
        } else {
          at := i + 1;
        }
        pos := i + 1;
      } else if c == AMPERSAND || c == SEMICOLON {
        PieceEnds(raw, start, at, pos, i, name, haveName, p, failed, acc);
        NextPiece(raw, start, i, acc);
        acc := Apply(acc, raw[start..i]);
        if !haveName && pos != i {
          var text;
          text, failed := DecodeText(raw[pos..i], failed);
          p := p[text := []];
        } else if haveName {
          var text;
          text, failed := DecodeText(raw[pos..i], failed);
          p := p[name := text];
          haveName := false;
        }
        pos := i + 1;
        start, at := i + 1, i + 1;
      }
    }
    PieceEnds(raw, start, at, pos, |raw|, name, haveName, p, failed, acc);
    LastPiece(raw, start, acc);
    assert raw[pos..] == raw[pos..|raw|];
    if pos != |raw| {
      var text;
      text, failed := DecodeText(raw[pos..], failed);
      if !haveName {
        p := p[text := []];
      } else {
        p := p[name := text];
      }
    } else if haveName {
      NothingDecodes();
      p := p[name := []];
    }
    return if failed then None else Some(p);
  }

  lemma NothingDecodes()
    ensures Decoded([]) == [] && !Bad([])
  {
  }

  // ---------------------------------------------------------------- names are never empty

  lemma {:induction false} DecodesToSomething(s: Str)
    requires s != [] && Decode(s, true).Some?
    ensures Decode(s, true).value != []
  {
  }

  lemma {:induction false} ParamHasName(piece: Str)
    requires ParamOf(piece).Some?
    ensures ParamOf(piece).value.0 != []
    decreases |piece|
  {
    if piece[0] == EQUALS {
      ParamHasName(piece[1..]);
    }
  }

  ghost predicate Named(acc: Acc) { acc.failed || [] !in acc.params }

  lemma {:induction false} FoldNamed(raw: Str, acc: Acc)
    requires Named(acc)
    ensures Named(Fold(raw, acc))
    decreases |raw|
  {
    var k := First(raw, Separator);
    ApplyNamed(acc, raw[..k]);
    if k < |raw| {
      FoldNamed(raw[k + 1..], Apply(acc, raw[..k]));
    } else {
      assert raw[..k] == raw;
    }
  }

  lemma ApplyNamed(acc: Acc, piece: Str)
    requires Named(acc)
    ensures Named(Apply(acc, piece))
  {
    if ParamOf(piece).Some? {
      ParamHasName(piece);
      var name := ParamOf(piece).value.0;
      if !Bad(name) {
        DecodesToSomething(name);
      }
    }
  }

  lemma NeverEmptyName(raw: Str)
    requires Parse(raw).Some?
    ensures [] !in Parse(raw).value
  {
    FoldNamed(raw, Acc(map[], false));
  }

  // ---------------------------------------------------------------- escaping and the round trip

  /** Unreserved characters. */
  predicate Plain(c: Byte) {
    0x30 <= c <= 0x39 || 0x41 <= c <= 0x5a || 0x61 <= c <= 0x7a || c == 0x2d || c == 0x5f || c == 0x2e || c == 0x7e
  }

  function HexDigit(n: nat): Byte
    requires n < 16
    ensures Unhex(HexDigit(n)) == n
    ensures !Separator(HexDigit(n)) && HexDigit(n) != EQUALS && HexDigit(n) != PERCENT
  {
    if n < 10 then 0x30 + n else 0x41 + n - 10
  }

  function EscapeByte(c: Byte): (e: Str)
    ensures e != [] && forall x :: x in e ==> !Separator(x) && x != EQUALS
  {
    if Plain(c) then [c]
    else if c == SPACE then [PLUS]
    else [PERCENT, HexDigit(c / 16), HexDigit(c % 16)]
  }

  /** url.QueryEscape */
  function Escape(s: Str): (e: Str)
    ensures forall x :: x in e ==> !Separator(x) && x != EQUALS
    ensures e == [] <==> s == []
  {
    if s == [] then [] else EscapeByte(s[0]) + Escape(s[1..])
  }

  lemma EscapedByte(c: Byte, rest: Str)
    ensures Decode(EscapeByte(c) + rest, true) == Prepend(c, Decode(rest, true))
  {
    var s := EscapeByte(c) + rest;
    if Plain(c) || c == SPACE {
      assert s[1..] == rest;
    } else {
      assert s[3..] == rest && s[0] == PERCENT && s[1] == HexDigit(c / 16) && s[2] == HexDigit(c % 16);
    }
  }

  lemma {:induction false} EscapeDecodes(s: Str)
    ensures Decode(Escape(s), true) == Some(s)
  {
    if s != [] {
      EscapeDecodes(s[1..]);
      EscapedByte(s[0], Escape(s[1..]));
      assert [s[0]] + s[1..] == s;
    }
  }

  function Pair(name: Str, value: Str): Str { Escape(name) + [EQUALS] + Escape(value) }

  /** The parameters in the order of the keys, joined with ampersands. */
  function Written(m: Params, keys: seq<Str>): Str
    requires forall k :: k in keys ==> k in m
  {
    if keys == [] then []
    else if |keys| == 1 then Pair(keys[0], m[keys[0]])
    else Pair(keys[0], m[keys[0]]) + [AMPERSAND] + Written(m, keys[1..])
  }

  lemma PairApplies(acc: Acc, name: Str, value: Str)
    requires name != []
    ensures Apply(acc, Pair(name, value)) == acc.(params := acc.params[name := value])
    ensures forall i :: 0 <= i < |Pair(name, value)| ==> !Separator(Pair(name, value)[i])
  {
    EscapeDecodes(name);
    EscapeDecodes(value);
    hide Decode, Escape, ParamOf;
    PairParts(Escape(name), Escape(value));
    NameAndValue(Pair(name, value), |Escape(name)|);
  }

  lemma PairParts(name: Str, value: Str)
    requires forall x :: x in name || x in value ==> !Separator(x) && x != EQUALS
    ensures var piece := name + [EQUALS] + value;
            && (forall i :: 0 <= i < |piece| ==> !Separator(piece[i]))
            && (forall i :: 0 <= i < |name| ==> piece[i] != EQUALS)
            && piece[|name|] == EQUALS && piece[..|name|] == name && piece[|name| + 1..] == value
  {
    var piece := name + [EQUALS] + value;
    forall i | 0 <= i < |piece| ensures !Separator(piece[i]) && (i < |name| ==> piece[i] != EQUALS) {
      if i < |name| {
        assert piece[i] in name;
      } else if i > |name| {
        assert piece[i] in value;
      }
    }
  }

  function Assigned(p: Params, m: Params, keys: seq<Str>): Params
    requires forall k :: k in keys ==> k in m
    decreases |keys|
  {
    if keys == [] then p else Assigned(p[keys[0] := m[keys[0]]], m, keys[1..])
  }

  lemma {:induction false} FoldWritten(m: Params, keys: seq<Str>, acc: Acc)
    requires (forall k :: k in keys ==> k in m) && [] !in keys
    ensures Fold(Written(m, keys), acc) == acc.(params := Assigned(acc.params, m, keys))
    decreases |keys|
  {
    var raw := Written(m, keys);
    if keys == [] {
      FirstIs(raw, Separator, 0);
    } else {
      var pair := Pair(keys[0], m[keys[0]]);
      PairApplies(acc, keys[0], m[keys[0]]);
      if |keys| == 1 {
        FirstIs(raw, Separator, |raw|);
        assert keys[1..] == [];
      } else {
        FirstIs(raw, Separator, |pair|);
        assert raw[..|pair|] == pair && raw[|pair| + 1..] == Written(m, keys[1..]);
        FoldWritten(m, keys[1..], Apply(acc, pair));
      }
    }
  }

  lemma {:induction false} AssignedAll(p: Params, m: Params, keys: seq<Str>)
    requires (forall k :: k in keys ==> k in m) && (forall k :: k in p ==> k in m && p[k] == m[k])
    requires forall k :: k in m ==> k in keys || k in p
    ensures Assigned(p, m, keys) == m
    decreases |keys|
  {
    if keys != [] {
      assert keys == [keys[0]] + keys[1..];
      AssignedAll(p[keys[0] := m[keys[0]]], m, keys[1..]);
    }
  }

  /** Writing parameters and parsing them again returns them exactly when no name is empty, in any order of the names. */
  lemma WrittenParses(m: Params, keys: seq<Str>)
    requires forall k :: k in keys <==> k in m
    ensures Parse(Written(m, keys)) == Some(m) <==> [] !in m
  {
    if [] !in m {
      FoldWritten(m, keys, Acc(map[], false));
      AssignedAll(map[], m, keys);
    } else if Parse(Written(m, keys)).Some? {
      NeverEmptyName(Written(m, keys));
    }
  }

  /** So parsing, writing and parsing a query string changes nothing. */
  lemma ParseWriteParse(raw: Str, keys: seq<Str>)
    requires Parse(raw).Some? && forall k :: k in keys <==> k in Parse(raw).value
    ensures Parse(Written(Parse(raw).value, keys)) == Parse(raw)
  {
    NeverEmptyName(raw);
    WrittenParses(Parse(raw).value, keys);
  }
}
