/**
 * The value of filter_path, parseFilterPath and compileFilterPaths of http_filterpath.go: filters
 * separated by commas, exclusions marked by a dash, and dotted paths whose dots can be escaped.
 *
 * Characters are compared with the space where the source trims runes up to the space.
 */
module FilterSyntax {
  import opened Strings
  import opened FilterPath

  // ---------------------------------------------------------------- one path

  /** The text between dots that no backslash precedes; prev is the character before the text. */
  function Cuts(f: string, prev: char): (pieces: seq<string>)
    ensures pieces != []
  {
    if f == "" then [""]
    else
      var rest := Cuts(f[1..], f[0]);
      if f[0] == '.' && prev != '\\' then [""] + rest else [[f[0]] + rest[0]] + rest[1..]
  }

  /** strings.ReplaceAll(s, "\\.", ".") */
  function Unescape(s: string): string {
    if s == "" then ""
    else if |s| > 1 && s[0] == '\\' && s[1] == '.' then "." + Unescape(s[2..])
    else [s[0]] + Unescape(s[1..])
  }

  function UnescapeAll(pieces: seq<string>): (segments: seq<string>)
    ensures |segments| == |pieces|
    ensures forall i :: 0 <= i < |pieces| ==> segments[i] == Unescape(pieces[i])
  {
    if pieces == [] then [] else UnescapeAll(pieces[..|pieces| - 1]) + [Unescape(pieces[|pieces| - 1])]
  }

  function Compile(f: string): (segments: seq<string>) {
    UnescapeAll(DropTrailing(Cuts(f, ' ')))
  }

  lemma CutsStep(c: char, prev: char, rest: string)
    ensures Cuts([c] + rest, prev)
            == if c == '.' && prev != '\\' then [""] + Cuts(rest, c) else [[c] + Cuts(rest, c)[0]] + Cuts(rest, c)[1..]
  {
    assert ([c] + rest)[1..] == rest;
  }

  /** The pieces of a text of which `word` and, before it, `done` have been read. */
  function Reading(done: seq<string>, word: string, rest: string, prev: char): seq<string> {
    done + [word + Cuts(rest, prev)[0]] + Cuts(rest, prev)[1..]
  }

  lemma ReadingStep(done: seq<string>, word: string, c: char, prev: char, rest: string)
    ensures Reading(done, word, [c] + rest, prev)
            == if c == '.' && prev != '\\' then Reading(done + [word], "", rest, c) else Reading(done, word + [c], rest, c)
  {
    hide Cuts;
    CutsStep(c, prev, rest);
    var after := Cuts(rest, c);
    assert word + "" == word && "" + after[0] == after[0];
    assert word + ([c] + after[0]) == word + [c] + after[0];
  }

  method CutPath(f: string) returns (segments: seq<string>)
    ensures segments == Cuts(f, ' ')
  {
    segments := [];
    var start := 0;
    assert f[0..] == f && f[0..0] + Cuts(f, ' ')[0] == Cuts(f, ' ')[0];
    for i := 0 to |f|
      invariant 0 <= start <= i
      invariant Cuts(f, ' ') == Reading(segments, f[start..i], f[i..], if i == 0 then ' ' else f[i - 1])
    {
      hide Cuts, Reading;
      ReadingStep(segments, f[start..i], f[i], if i == 0 then ' ' else f[i - 1], f[i + 1..]);
      assert f[i..] == [f[i]] + f[i + 1..];
      assert f[start..i + 1] == f[start..i] + [f[i]];
      if f[i] == '.' && (i == 0 || f[i - 1] != '\\') {
        segments := segments + [f[start..i]];
        start := i + 1;
        assert f[i + 1..i + 1] == "";
      }
    }
    segments := segments + [f[start..]];
    assert f[|f|..] == "" && f[start..|f|] + "" == f[start..];
  }

  method UnescapeSegments(pieces: seq<string>) returns (segments: seq<string>)
    ensures segments == UnescapeAll(pieces)
  {
    segments := pieces;
    for i := 0 to |segments|
      invariant |segments| == |pieces|
      invariant forall j :: 0 <= j < i ==> segments[j] == Unescape(pieces[j])
      invariant forall j :: i <= j < |pieces| ==> segments[j] == pieces[j]
    {
      segments := segments[i := Unescape(segments[i])];
    }
  }

  /** The loops of compileFilterPaths over one trimmed path. */
  method CompilePath(f: string) returns (segments: seq<string>)
    ensures segments == Compile(f)
  {
    segments := CutPath(f);
    while segments != [] && segments[|segments| - 1] == ""
      invariant DropTrailing(segments) == DropTrailing(Cuts(f, ' '))
      decreases |segments|
    {
      segments := segments[..|segments| - 1];
    }
    segments := UnescapeSegments(segments);
  }

  // ---------------------------------------------------------------- writing a path

  function Escape(s: string): (r: string)
    ensures s == "" <==> r == ""
    ensures s != "" ==> r[|r| - 1] == s[|s| - 1]
  {
    if s == "" then "" else (if s[0] == '.' then "\\." else [s[0]]) + Escape(s[1..])
  }

  function Written(segments: seq<string>): string {
    if segments == [] then ""
    else if |segments| == 1 then Escape(segments[0])
    else Escape(segments[0]) + ("." + Written(segments[1..]))
  }

  lemma {:induction false} UnescapeEscape(s: string)
    ensures Unescape(Escape(s)) == s
  {
    if s != "" {
      UnescapeEscape(s[1..]);
      var e := Escape(s);
      if s[0] == '.' {
        assert e[2..] == Escape(s[1..]);
      } else {
        assert e[1..] == Escape(s[1..]);
        if |e| > 1 && s[0] == '\\' {
          assert e[1] == Escape(s[1..])[0];
          assert Escape(s[1..])[0] != '.';
        }
      }
    }
  }

  /** The character before what follows a written segment. */
  function Last(s: string, prev: char): char {
    if s == "" then prev else s[|s| - 1]
  }

  /** No dot of a written segment separates. */
  lemma {:induction false} CutsEscape(s: string, prev: char, rest: string)
    ensures Cuts(Escape(s) + rest, prev)
            == [Escape(s) + Cuts(rest, Last(s, prev))[0]] + Cuts(rest, Last(s, prev))[1..]
    decreases |s|
  {
    hide Cuts;
    if s == "" {
      assert Escape(s) + rest == rest;
      assert Escape(s) + Cuts(rest, prev)[0] == Cuts(rest, prev)[0];
    } else {
      CutsEscape(s[1..], s[0], rest);
      var tail := Escape(s[1..]) + rest;
      assert Last(s[1..], s[0]) == Last(s, prev);
      var after := Cuts(rest, Last(s, prev))[0];
      if s[0] == '.' {
        assert Escape(s) + rest == ['\\'] + (['.'] + tail);
        assert ['\\'] + (['.'] + (Escape(s[1..]) + after)) == Escape(s) + after;
        CutsStep('\\', prev, ['.'] + tail);
        CutsStep('.', '\\', tail);
      } else {
        assert Escape(s) + rest == [s[0]] + tail;
        assert [s[0]] + (Escape(s[1..]) + after) == Escape(s) + after;
        CutsStep(s[0], prev, tail);
      }
    }
  }

  /** Only the last segment may end with a backslash. */
  ghost predicate Separable(segments: seq<string>) {
    forall i :: 0 <= i < |segments| - 1 ==> !EscapesNext(segments[i])
  }

  predicate EscapesNext(segment: string) { segment != "" && segment[|segment| - 1] == '\\' }

  function EscapeAll(segments: seq<string>): (pieces: seq<string>)
    ensures |pieces| == |segments|
    ensures forall i :: 0 <= i < |segments| ==> pieces[i] == Escape(segments[i])
  {
    if segments == [] then [] else [Escape(segments[0])] + EscapeAll(segments[1..])
  }

  lemma SeparableStep(segments: seq<string>)
    requires |segments| > 1
    ensures Separable(segments) <==>
            Separable(segments[1..]) && !EscapesNext(segments[0])
  {
    if Separable(segments) {
      forall i | 0 <= i < |segments| - 2 ensures segments[1..][i] == segments[i + 1] {
      }
    }
    if Separable(segments[1..]) {
      forall i | 1 <= i < |segments| - 1 ensures segments[i] == segments[1..][i - 1] {
      }
    }
  }

  lemma WrittenStep(segments: seq<string>, prev: char)
    requires |segments| > 1 && prev != '\\'
    ensures !EscapesNext(segments[0]) ==>
              Cuts(Written(segments), prev) == [Escape(segments[0])] + Cuts(Written(segments[1..]), '.')
    ensures EscapesNext(segments[0]) ==>
              |Cuts(Written(segments), prev)| == |Cuts(Written(segments[1..]), '.')|
  {
    hide Cuts;
    var a, rest := segments[0], Written(segments[1..]);
    CutsEscape(a, prev, "." + rest);
    CutsStep('.', Last(a, prev), rest);
    assert Escape(a) + "" == Escape(a);
  }

  lemma WrittenAlone(a: string, prev: char)
    ensures Cuts(Written([a]), prev) == [Escape(a)]
  {
    CutsEscape(a, prev, "");
    assert Escape(a) + "" == Escape(a);
  }

  lemma {:induction false} CutsWritten(segments: seq<string>, prev: char)
    requires segments != [] && prev != '\\'
    ensures Separable(segments) ==> Cuts(Written(segments), prev) == EscapeAll(segments)
    ensures !Separable(segments) ==> |Cuts(Written(segments), prev)| < |segments|
    ensures |Cuts(Written(segments), prev)| <= |segments|
    decreases |segments|
  {
    if |segments| == 1 {
      WrittenAlone(segments[0], prev);
      assert segments == [segments[0]] && EscapeAll(segments) == [Escape(segments[0])];
    } else {
      hide Cuts, Written, Escape, Separable, EscapesNext;
      WrittenStep(segments, prev);
      CutsWritten(segments[1..], '.');
      SeparableStep(segments);
    }
  }

  /**
   * A path with a last segment that is not empty is read back from its written form, in which every
   * dot inside a segment is escaped, exactly when only its last segment ends with a backslash.
   */
  lemma CompileWritten(segments: seq<string>)
    requires segments != [] && segments[|segments| - 1] != ""
    ensures Compile(Written(segments)) == segments <==> Separable(segments)
  {
    hide Cuts, Written, Escape, Separable, EscapeAll, UnescapeAll;
    CutsWritten(segments, ' ');
    if Separable(segments) {
      UnescapeEscapeAll(segments);
    }
  }

  lemma UnescapeEscapeAll(segments: seq<string>)
    requires segments != [] && segments[|segments| - 1] != ""
    ensures UnescapeAll(DropTrailing(EscapeAll(segments))) == segments
  {
    hide EscapeAll, UnescapeAll, Unescape, Escape;
    forall i | 0 <= i < |segments| ensures UnescapeAll(EscapeAll(segments))[i] == segments[i] {
      UnescapeEscape(segments[i]);
    }
  }

  ghost predicate Closed(pieces: seq<string>, prev: char) {
    && (|pieces| > 1 ==> Last(pieces[0], prev) != '\\')
    && forall i :: 1 <= i < |pieces| - 1 ==> !EscapesNext(pieces[i])
  }

  /** No piece that a separator follows ends with a backslash. */
  lemma {:induction false} CutsClosed(f: string, prev: char)
    ensures Closed(Cuts(f, prev), prev)
    decreases |f|
  {
    if f != "" {
      CutsClosed(f[1..], f[0]);
      var p, rest := Cuts(f, prev), Cuts(f[1..], f[0]);
      if f[0] == '.' && prev != '\\' {
        forall i | 1 <= i < |p| - 1 ensures !EscapesNext(p[i]) {
          assert p[i] == rest[i - 1];
        }
      } else {
        forall i | 1 <= i < |p| - 1 ensures !EscapesNext(p[i]) {
          assert p[i] == rest[i];
        }
      }
    }
  }

  lemma {:induction false} UnescapeKeepsEnd(p: string)
    ensures (Unescape(p) == "" <==> p == "") && (EscapesNext(Unescape(p)) <==> EscapesNext(p))
    decreases |p|
  {
    if |p| > 1 && p[0] == '\\' && p[1] == '.' {
      UnescapeKeepsEnd(p[2..]);
      assert Unescape(p)[1..] == Unescape(p[2..]);
    } else if p != "" {
      UnescapeKeepsEnd(p[1..]);
      assert Unescape(p)[1..] == Unescape(p[1..]);
    }
  }

  lemma CompiledIsSeparable(f: string)
    ensures var segments := Compile(f); segments != [] ==> segments[|segments| - 1] != "" && Separable(segments)
  {
    var cut := Cuts(f, ' ');
    var pieces, segments := DropTrailing(cut), Compile(f);
    CutsClosed(f, ' ');
    if segments != [] {
      UnescapeKeepsEnd(pieces[|pieces| - 1]);
      forall i | 0 <= i < |segments| - 1 ensures !EscapesNext(segments[i]) {
        assert pieces[i] == cut[i];
        UnescapeKeepsEnd(pieces[i]);
      }
    }
  }

  /** A path of a filter is some text's exactly when its last segment is not empty and only that may end with a backslash. */
  lemma CompilesExactly(segments: seq<string>)
    requires segments != []
    ensures (exists f :: Compile(f) == segments) <==> segments[|segments| - 1] != "" && Separable(segments)
  {
    if f :| Compile(f) == segments {
      CompiledIsSeparable(f);
    }
    if segments[|segments| - 1] != "" && Separable(segments) {
      CompileWritten(segments);
      assert Compile(Written(segments)) == segments;
    }
  }

  // ---------------------------------------------------------------- the whole value

  predicate Blank(c: char) { c <= ' ' }

  function Clean(s: string): string { TrimFunc(s, Blank) }

  /** The filters of the first n pieces, in order and once each. */
  function Tokens(pieces: seq<string>, n: nat): (tokens: seq<string>)
    requires n <= |pieces|
    ensures forall t :: t in tokens <==> t != "" && exists i :: 0 <= i < n && t == Clean(pieces[i])
  {
    if n == 0 then []
    else
      var before := Tokens(pieces, n - 1);
      var t := Clean(pieces[n - 1]);
      if t == "" || t in before then before else before + [t]
  }

  function Excluded(tokens: seq<string>): seq<string>
    requires "" !in tokens
  {
    if tokens == [] then []
    else
      var n := |tokens| - 1;
      Excluded(tokens[..n]) + if tokens[n][0] == '-' then [tokens[n][1..]] else []
  }

  function Included(tokens: seq<string>): seq<string>
    requires "" !in tokens
  {
    if tokens == [] then []
    else
      var n := |tokens| - 1;
      Included(tokens[..n]) + if tokens[n][0] != '-' then [tokens[n]] else []
  }

  lemma {:induction false} ExcludedIn(tokens: seq<string>, f: string)
    requires "" !in tokens
    ensures f in Excluded(tokens) <==> ['-'] + f in tokens
  {
    if tokens != [] {
      var n := |tokens| - 1;
      ExcludedIn(tokens[..n], f);
      assert tokens == tokens[..n] + [tokens[n]];
      assert tokens[n] in tokens;
      assert tokens[n] == [tokens[n][0]] + tokens[n][1..];
      assert (['-'] + f)[1..] == f;
    }
  }

  lemma {:induction false} IncludedIn(tokens: seq<string>, f: string)
    requires "" !in tokens
    ensures f in Included(tokens) <==> f in tokens && f[0] != '-'
  {
    if tokens != [] {
      var n := |tokens| - 1;
      IncludedIn(tokens[..n], f);
      assert tokens == tokens[..n] + [tokens[n]];
      assert tokens[n] in tokens;
    }
  }

  function CompileAll(filters: seq<string>): (out: seq<seq<string>>)
    ensures forall p :: p in out <==> exists f :: f in filters && Clean(f) != "" && p == Compile(Clean(f))
  {
    if filters == [] then []
    else
      var n := |filters| - 1;
      assert filters == filters[..n] + [filters[n]];
      CompileAll(filters[..n]) + if Clean(filters[n]) == "" then [] else [Compile(Clean(filters[n]))]
  }

  datatype Parsed = Inactive | Rejected | Active(filters: Filters)

  function ParseTokens(tokens: seq<string>): Parsed
    requires "" !in tokens
  {
    var includes, excludes := Included(tokens), Excluded(tokens);
    var fp := Filters(CompileAll(includes), CompileAll(excludes));
    if (includes != [] && fp.includes == []) || (excludes != [] && fp.excludes == []) then Rejected
    else if fp.includes == [] && fp.excludes == [] then Inactive
    else Active(fp)
  }

  function Parse(raw: string): Parsed {
    var pieces := Split(raw, ',');
    ParseTokens(Tokens(pieces, |pieces|))
  }

  /** compileFilterPaths */
  method CompileFilterPaths(filters: seq<string>) returns (out: seq<seq<string>>)
    ensures out == CompileAll(filters)
  {
    out := [];
    for i := 0 to |filters|
      invariant out == CompileAll(filters[..i])
    {
      assert filters[..i + 1][..i] == filters[..i];
      var f := Clean(filters[i]);
      if f != "" {
        var segments := CompilePath(f);
        out := out + [segments];
      }
    }
    assert filters[..|filters|] == filters;
  }

  /** The loop of parseFilterPath over the parts of the value. */
  method SortTokens(pieces: seq<string>) returns (includes: seq<string>, excludes: seq<string>)
    ensures includes == Included(Tokens(pieces, |pieces|)) && excludes == Excluded(Tokens(pieces, |pieces|))
  {
    hide Clean;
    includes, excludes := [], [];
    var seen: set<string> := {};
    for i := 0 to |pieces|
      invariant seen == set t | t in Tokens(pieces, i)
      invariant includes == Included(Tokens(pieces, i)) && excludes == Excluded(Tokens(pieces, i))
    {
      var token := Clean(pieces[i]);
      if token != "" && token !in seen {
        OneMoreToken(Tokens(pieces, i), token);
        seen := seen + {token};
        if token[0] == '-' {
          excludes := excludes + [token[1..]];
        } else {
          includes := includes + [token];
        }
      }
    }
  }

  lemma OneMoreToken(tokens: seq<string>, t: string)
    requires "" !in tokens && t != ""
    ensures Included(tokens + [t]) == Included(tokens) + if t[0] != '-' then [t] else []
    ensures Excluded(tokens + [t]) == Excluded(tokens) + if t[0] == '-' then [t[1..]] else []
    ensures (set x | x in tokens + [t]) == (set x | x in tokens) + {t}
  {
    assert (tokens + [t])[..|tokens|] == tokens;
  }

  /** parseFilterPath */
  method ParseFilterPath(raw: string) returns (r: Parsed)
    ensures r == Parse(raw)
  {
    if raw == "" {
      NothingAsked();
      return Inactive;
    }
    var pieces := Split(raw, ',');
    var includes, excludes := SortTokens(pieces);
    var included := CompileFilterPaths(includes);
    var excluded := CompileFilterPaths(excludes);
    if (includes != [] && included == []) || (excludes != [] && excluded == []) {
      return Rejected;
    }
    if included == [] && excluded == [] {
      return Inactive;
    }
    return Active(Filters(included, excluded));
  }

  lemma NothingAsked()
    ensures Parse("") == Inactive
  {
    assert Split("", ',') == [""] && Clean("") == "";
    assert Tokens([""], 1) == Tokens([""], 0) == [];
  }

  // ---------------------------------------------------------------- what the value means

  /** A comma-separated part of the value, without the blanks around it. */
  ghost predicate Part(raw: string, t: string) {
    t != "" && exists i :: 0 <= i < |Split(raw, ',')| && t == Clean(Split(raw, ',')[i])
  }

  ghost predicate Inclusion(raw: string, t: string) {
    Part(raw, t) && t[0] != '-'
  }

  /** Some part without a dash selects the path. */
  ghost predicate Includes(raw: string, path: seq<string>) {
    exists t :: Inclusion(raw, t) && Selects(Compile(t), path)
  }

  /** Some part with a dash, and more than blanks after it, selects the path. */
  ghost predicate Excludes(raw: string, path: seq<string>) {
    exists f :: Part(raw, ['-'] + f) && Clean(f) != "" && Selects(Compile(Clean(f)), path)
  }

  lemma {:induction false} CleanTwice(s: string, cut: char -> bool)
    requires Trimmed(s, cut)
    ensures TrimFunc(s, cut) == s
  {
  }

  lemma TokensAreParts(raw: string, t: string)
    ensures t in Tokens(Split(raw, ','), |Split(raw, ',')|) <==> Part(raw, t)
  {
  }

  ghost predicate SomeText(filters: seq<string>) {
    exists f :: f in filters && Clean(f) != ""
  }

  lemma CompiledIfText(filters: seq<string>)
    ensures CompileAll(filters) != [] <==> SomeText(filters)
  {
    hide Compile, Clean;
    if CompileAll(filters) != [] {
      assert CompileAll(filters)[0] in CompileAll(filters);
    }
    if f :| f in filters && Clean(f) != "" {
      assert Compile(Clean(f)) in CompileAll(filters);
    }
  }

  /** An include filter is never blank. */
  lemma IncludedIsText(raw: string)
    ensures var includes := Included(Tokens(Split(raw, ','), |Split(raw, ',')|));
            forall f :: f in includes ==> f != "" && Clean(f) == f && Inclusion(raw, f)
  {
    hide TrimFunc;
    var tokens := Tokens(Split(raw, ','), |Split(raw, ',')|);
    forall f | f in Included(tokens) ensures f != "" && Clean(f) == f && Inclusion(raw, f) {
      IncludedIn(tokens, f);
      TokensAreParts(raw, f);
      CleanTwice(f, Blank);
    }
  }

  /** The value is rejected exactly when it excludes something and every exclusion is blank. */
  lemma RejectedExactly(raw: string)
    ensures Parse(raw) == Rejected <==>
            (exists f :: Part(raw, ['-'] + f)) && forall f :: Part(raw, ['-'] + f) ==> Clean(f) == ""
  {
    hide Clean, Tokens, Split, Included, Excluded, Part;
    var tokens := Tokens(Split(raw, ','), |Split(raw, ',')|);
    var includes, excludes := Included(tokens), Excluded(tokens);
    CompiledIfText(includes);
    CompiledIfText(excludes);
    IncludedIsText(raw);
    forall f ensures f in excludes <==> Part(raw, ['-'] + f) {
      ExcludedIn(tokens, f);
      TokensAreParts(raw, ['-'] + f);
    }
    if includes != [] {
      assert includes[0] in includes;
    }
    if excludes != [] {
      assert excludes[0] in excludes;
    }
  }

  /** Which parts the compiled filters come from. */
  lemma ParsedSelects(raw: string, path: seq<string>)
    requires Parse(raw).Active?
    ensures SomeSelects(Parse(raw).filters.includes, path) <==> Includes(raw, path)
    ensures SomeSelects(Parse(raw).filters.excludes, path) <==> Excludes(raw, path)
  {
    hide Clean, Tokens, Split, Included, Excluded, Compile, Selects, Part;
    var tokens := Tokens(Split(raw, ','), |Split(raw, ',')|);
    var includes, excludes := Included(tokens), Excluded(tokens);
    IncludedIsText(raw);
    forall f ensures f in excludes <==> Part(raw, ['-'] + f) {
      ExcludedIn(tokens, f);
      TokensAreParts(raw, ['-'] + f);
    }
    if t :| Inclusion(raw, t) && Selects(Compile(t), path) {
      TokensAreParts(raw, t);
      IncludedIn(tokens, t);
      assert Compile(Clean(t)) in CompileAll(includes);
    }
    if f :| Part(raw, ['-'] + f) && Clean(f) != "" && Selects(Compile(Clean(f)), path) {
      assert f in excludes;
      assert Compile(Clean(f)) in CompileAll(excludes);
    }
  }

  /**
   * What a filter_path value leaves of a response body: a scalar survives, as often as it occurs,
   * exactly when some part without a dash selects it, or no part is without one, and no part with
   * a dash selects it.
   */
  lemma ResponseExact(raw: string, body: Json, leaf: Leaf)
    requires Parse(raw).Active?
    ensures multiset(Remaining(Apply(Parse(raw).filters, body)))[leaf]
            == if (Includes(raw, leaf.path) || !exists t :: Inclusion(raw, t)) && !Excludes(raw, leaf.path)
               then multiset(Leaves(body))[leaf] else 0
  {
    hide Clean, Tokens, Split, Included, Excluded, Includes, Excludes, Part, Apply, Leaves, Remaining;
    var tokens := Tokens(Split(raw, ','), |Split(raw, ',')|);
    ApplyExact(Parse(raw).filters, body, leaf);
    ParsedSelects(raw, leaf.path);
    CompiledIfText(Included(tokens));
    IncludedIsText(raw);
    if t :| Inclusion(raw, t) {
      TokensAreParts(raw, t);
      IncludedIn(tokens, t);
    }
    if Included(tokens) != [] {
      assert Included(tokens)[0] in Included(tokens);
    }
  }
}
