/** The rename-mask renderer `NewName` of track.go. A mask such as
    `{track%02d} {title_}` holds tokens `{key<format>}`; for each tagged field
    in turn the leftmost token naming it is rendered with the format and every
    copy of that exact token text is replaced by the rendering.

    `fmt.Sprintf` and `strconv.ParseFloat` are library code and are passed
    in as a `Printer`; `ParseBool` and `ParseInt` are the explicit parsers of
    `GoStrconv`. Go's map iteration order is unspecified; the fields are
    visited here in struct declaration order. */
module Rename {

  import opened Wrappers
  import opened GoStrconv
  import opened GoStrings
  import opened Tracks

  /** The argument handed to `Sprintf` after the verb-driven parse. A float
      keeps its text: only whether it parses is modelled. */
  datatype FmtArg = BoolArg(b: bool) | IntArg(i: int) | FloatArg(text: string) | StrArg(s: string)

  datatype Printer = Printer(sprintf: (string, FmtArg) -> string, parsesAsFloat: string -> bool)

  /** The three parse failures `NewName` reports, with the key and value. */
  datatype RenameError =
    | BadBool(key: string, value: string)
    | BadInt(key: string, value: string)
    | BadFloat(key: string, value: string)

  /** What rendering produces: a text, the error pair `("", err)`, or the
      run-time panic of slicing an empty format. */
  datatype Outcome = Named(name: string) | Failed(err: RenameError) | Panicked(key: string)

  // ---------------------------------------------------------------------------
  // Finding a token: the expression `{(key)([^}]*)}`
  // ---------------------------------------------------------------------------

  /** A match of `{key[^}]*}` starts at `i`. */
  predicate TokenAt(s: string, key: string, i: nat)
  {
    i + 1 + |key| <= |s| && s[i] == '{' && s[i + 1..i + 1 + |key|] == key
    && '}' in s[i + 1 + |key|..]
  }

  /** The first `}` at or after `j`. */
  function CloseFrom(s: string, j: nat): (c: nat)
    requires j <= |s| && '}' in s[j..]
    ensures j <= c < |s| && s[c] == '}' && '}' !in s[j..c]
    decreases |s| - j
  {
    if s[j] == '}' then j
    else
      assert s[j..] == [s[j]] + s[j + 1..];
      CloseFrom(s, j + 1)
  }

  /** A match: the `{` at `start` and the `}` at `close`. */
  datatype Token = Token(start: nat, close: nat)

  function FindTokenFrom(s: string, key: string, i: nat): (r: Option<Token>)
    requires i <= |s|
    ensures r.None? ==> forall j: nat :: i <= j ==> !TokenAt(s, key, j)
    ensures r.Some? ==>
      i <= r.value.start && TokenAt(s, key, r.value.start)
      && r.value.close == CloseFrom(s, r.value.start + 1 + |key|)
      && forall j: nat :: i <= j < r.value.start ==> !TokenAt(s, key, j)
    decreases |s| - i
  {
    if i == |s| then None
    else if TokenAt(s, key, i) then Some(Token(i, CloseFrom(s, i + 1 + |key|)))
    else FindTokenFrom(s, key, i + 1)
  }

  /** `FindStringSubmatch`: the leftmost match, if any. */
  function FindToken(s: string, key: string): (r: Option<Token>)
    ensures r.None? <==> forall j: nat :: !TokenAt(s, key, j)
    ensures r.Some? ==> TokenBounds(s, key, r.value)
    ensures r.Some? ==>
      TokenAt(s, key, r.value.start)
      && r.value.close == CloseFrom(s, r.value.start + 1 + |key|)
      && forall j: nat :: j < r.value.start ==> !TokenAt(s, key, j)
  {
    FindTokenFrom(s, key, 0)
  }

  /** The `{` and the `}` of a token lie inside the text, with room for the
      key between them. */
  predicate TokenBounds(s: string, key: string, tok: Token)
  {
    tok.start + 1 + |key| <= tok.close < |s|
  }

  /** The whole matched text `{key<format>}`. */
  function TokenText(s: string, key: string, tok: Token): string
    requires TokenBounds(s, key, tok)
  {
    s[tok.start..tok.close + 1]
  }

  /** The format part between the key and the `}`. */
  function TokenFormat(s: string, key: string, tok: Token): string
    requires TokenBounds(s, key, tok)
  {
    s[tok.start + 1 + |key|..tok.close]
  }

  /** A string without the text `{key` has no token for `key`. */
  lemma NoTokenWithoutOpening(s: string, key: string)
    requires !Contains(s, "{" + key)
    ensures FindToken(s, key).None?
  {
    forall j: nat
      ensures !TokenAt(s, key, j)
    {
      if TokenAt(s, key, j) {
        OpeningOfToken(s, key, j);
      }
    }
  }

  /** A token starts with the text `{key`. */
  lemma OpeningOfToken(s: string, key: string, j: nat)
    requires TokenAt(s, key, j)
    ensures j <= |s| && OccursAt(s, "{" + key, j)
  {
    assert s[j..j + 1 + |key|] == [s[j]] + s[j + 1..j + 1 + |key|];
  }

  // ---------------------------------------------------------------------------
  // Rendering one field
  // ---------------------------------------------------------------------------

  predicate IsIntVerb(c: char)
  {
    c == 'b' || c == 'c' || c == 'd' || c == 'o' || c == 'q' || c == 'x' || c == 'X' || c == 'U'
  }

  predicate IsFloatVerb(c: char)
  {
    c == 'e' || c == 'E' || c == 'f' || c == 'F' || c == 'g' || c == 'G'
  }

  /** The format with the `_` and `-` markers removed; `%s` stands in for an
      empty format before the markers are removed, or, when
      `defaultAfterMarkers` holds, after. */
  function PlainFormat(raw: string, defaultAfterMarkers: bool): (f: string)
    ensures '_' !in f && '-' !in f
    ensures raw == "" ==> f == "%s"
    ensures '_' !in raw && '-' !in raw && raw != "" ==> f == raw
    ensures defaultAfterMarkers ==> f != ""
    ensures raw != "" && RemoveChar(RemoveChar(raw, '_'), '-') != "" ==>
      f == RemoveChar(RemoveChar(raw, '_'), '-')
    ensures f == "" <==>
      !defaultAfterMarkers && raw != "" && forall i :: 0 <= i < |raw| ==> raw[i] == '_' || raw[i] == '-'
  {
    MarkersOnly(raw);
    var f0 := if raw == "" then "%s" else raw;
    var f1 := if '_' in f0 then RemoveChar(f0, '_') else f0;
    var f2 := if '-' in f1 then RemoveChar(f1, '-') else f1;
    if defaultAfterMarkers && f2 == "" then "%s" else f2
  }

  /** Removing both markers leaves nothing exactly when the text is made
      only of markers. */
  lemma MarkersOnly(raw: string)
    ensures RemoveChar(RemoveChar(raw, '_'), '-') == [] <==>
      forall i :: 0 <= i < |raw| ==> raw[i] == '_' || raw[i] == '-'
  {
    var r := RemoveChar(RemoveChar(raw, '_'), '-');
    if r != [] {
      assert r[0] in r;
    }
    if r == [] {
      forall i | 0 <= i < |raw|
        ensures raw[i] == '_' || raw[i] == '-'
      {
        assert raw[i] in raw;
      }
    }
  }

  /** Replaces spaces by `_` when the raw format holds `_`, then by `-` when
      it holds `-`. */
  function ApplyMarkers(s: string, raw: string): (r: string)
    ensures |r| == |s|
    ensures '_' in raw ==> forall i :: 0 <= i < |s| ==> r[i] == (if s[i] == ' ' then '_' else s[i])
    ensures '_' !in raw && '-' in raw ==> forall i :: 0 <= i < |s| ==> r[i] == (if s[i] == ' ' then '-' else s[i])
    ensures '_' !in raw && '-' !in raw ==> r == s
    ensures ('_' in raw || '-' in raw) ==> ' ' !in r
  {
    var f0 := if raw == "" then "%s" else raw;
    var s1 := if '_' in f0 then ReplaceChar(s, ' ', '_') else s;
    var dash := '-' in (if '_' in f0 then RemoveChar(f0, '_') else f0);
    assert '-' in raw ==> dash;
    if dash then ReplaceChar(s1, ' ', '-') else s1
  }

  /** Renders the value `v` of field `key` through the raw format: the last
      character of the plain format picks the parse (`t` boolean, one of
      `bcdoqxXU` integer, one of `eEfFgG` float, anything else none); a parse
      failure is an error and an empty plain format is the slicing panic. */
  function RenderField(p: Printer, key: string, v: string, raw: string, defaultAfterMarkers: bool): (o: Outcome)
    ensures o.Panicked? <==> PlainFormat(raw, defaultAfterMarkers) == ""
    ensures o.Panicked? ==> o.key == key
    ensures o.Failed? ==> o.err.key == key && o.err.value == v
    ensures o.Named? && ('_' in raw || '-' in raw) ==> ' ' !in o.name
    ensures var f := PlainFormat(raw, defaultAfterMarkers);
      f != "" && f[|f| - 1] == 't' && ParseBool(v).Some? ==>
        o == Named(ApplyMarkers(p.sprintf(f, BoolArg(ParseBool(v).value)), raw))
    ensures var f := PlainFormat(raw, defaultAfterMarkers);
      f != "" && IsIntVerb(f[|f| - 1]) && ParseInt(v).IntOk? ==>
        o == Named(ApplyMarkers(p.sprintf(f, IntArg(ParseInt(v).value)), raw))
    ensures var f := PlainFormat(raw, defaultAfterMarkers);
      f != "" && IsFloatVerb(f[|f| - 1]) ==>
        o == if p.parsesAsFloat(v) then Named(ApplyMarkers(p.sprintf(f, FloatArg(v)), raw)) else Failed(BadFloat(key, v))
    ensures var f := PlainFormat(raw, defaultAfterMarkers);
      f != "" && f[|f| - 1] != 't' && !IsIntVerb(f[|f| - 1]) && !IsFloatVerb(f[|f| - 1]) ==>
        o == Named(ApplyMarkers(p.sprintf(f, StrArg(v)), raw))
  {
    var format := PlainFormat(raw, defaultAfterMarkers);
    if format == "" then Panicked(key)
    else
      var printed := Printed(p, key, v, format);
      if printed.Named? then Named(ApplyMarkers(printed.name, raw)) else printed
  }

  /** The switch on the last character of a non-empty format: the parse the
      verb asks for, then `Sprintf` of the parsed value. */
  function Printed(p: Printer, key: string, v: string, format: string): (o: Outcome)
    requires format != ""
    ensures !o.Panicked?
    ensures o.Failed? ==> o.err.key == key && o.err.value == v
    ensures format[|format| - 1] == 't' && ParseBool(v).Some? ==>
      o == Named(p.sprintf(format, BoolArg(ParseBool(v).value)))
    ensures IsIntVerb(format[|format| - 1]) && ParseInt(v).IntOk? ==>
      o == Named(p.sprintf(format, IntArg(ParseInt(v).value)))
    ensures IsFloatVerb(format[|format| - 1]) ==>
      o == if p.parsesAsFloat(v) then Named(p.sprintf(format, FloatArg(v))) else Failed(BadFloat(key, v))
    ensures format[|format| - 1] != 't' && !IsIntVerb(format[|format| - 1]) && !IsFloatVerb(format[|format| - 1]) ==>
      o == Named(p.sprintf(format, StrArg(v)))
  {
    var verb := format[|format| - 1];
    if verb == 't' then
      match ParseBool(v)
      case None => Failed(BadBool(key, v))
      case Some(b) => Named(p.sprintf(format, BoolArg(b)))
    else if IsIntVerb(verb) then
      match ParseInt(v)
      case IntOk(i) => Named(p.sprintf(format, IntArg(i)))
      case _ => Failed(BadInt(key, v))
    else if IsFloatVerb(verb) then
      if p.parsesAsFloat(v) then Named(p.sprintf(format, FloatArg(v))) else Failed(BadFloat(key, v))
    else Named(p.sprintf(format, StrArg(v)))
  }

  /** The verb decides which parse can fail, and a failing parse is always
      reported as an error rather than rendered. */
  lemma RenderFieldParseFailures(p: Printer, key: string, v: string, raw: string, late: bool)
    requires PlainFormat(raw, late) != ""
    ensures var format := PlainFormat(raw, late);
      var verb := format[|format| - 1];
      && (verb == 't' ==> (RenderField(p, key, v, raw, late) == Failed(BadBool(key, v)) <==> ParseBool(v).None?))
      && (IsIntVerb(verb) ==> (RenderField(p, key, v, raw, late) == Failed(BadInt(key, v)) <==> !ParseInt(v).IntOk?))
      && (verb != 't' && !IsIntVerb(verb) && !IsFloatVerb(verb) ==> RenderField(p, key, v, raw, late).Named?)
  {
  }

  // ---------------------------------------------------------------------------
  // Rendering the mask
  // ---------------------------------------------------------------------------

  /** The loop of `NewName` over the fields still to visit: the leftmost
      token of each field is rendered and every copy of its text replaced in
      the current name; later fields see the text earlier ones produced.
      The value of a field is `GetField`, which is what `Fields(t)` maps the
      field's column name to. */
  function RenderKeys(p: Printer, t: Track, keys: seq<Field>, cur: string, late: bool): (o: Outcome)
    decreases |keys|
  {
    if keys == [] then Named(cur)
    else
      var k := ColumnName(keys[0]);
      match FindToken(cur, k)
      case None => RenderKeys(p, t, keys[1..], cur, late)
      case Some(tok) =>
        match RenderField(p, k, GetField(t, keys[0]), TokenFormat(cur, k, tok), late)
        case Named(s) => RenderKeys(p, t, keys[1..], ReplaceAll(cur, TokenText(cur, k, tok), s), late)
        case other => other
  }

  /** A panic or an error of the loop names one of the visited fields, and
      an error carries that field's value. */
  lemma {:induction false} RenderKeysBlamesField(p: Printer, t: Track, keys: seq<Field>, cur: string, late: bool)
    ensures var o := RenderKeys(p, t, keys, cur, late);
      && (o.Panicked? ==> exists j :: 0 <= j < |keys| && o.key == ColumnName(keys[j]))
      && (o.Failed? ==> exists j :: 0 <= j < |keys| && o.err.key == ColumnName(keys[j]) && o.err.value == GetField(t, keys[j]))
    decreases |keys|
  {
    if keys != [] {
      var k := ColumnName(keys[0]);
      match FindToken(cur, k)
      case None =>
        RenderKeysBlamesField(p, t, keys[1..], cur, late);
        BlameShifts(p, t, keys, cur, late);
      case Some(tok) =>
        match RenderField(p, k, GetField(t, keys[0]), TokenFormat(cur, k, tok), late)
        case Named(s) =>
          var next := ReplaceAll(cur, TokenText(cur, k, tok), s);
          RenderKeysBlamesField(p, t, keys[1..], next, late);
          BlameShifts(p, t, keys, next, late);
        case _ =>
    }
  }

  /** A field of `keys[1..]` is a field of `keys`. */
  lemma BlameShifts(p: Printer, t: Track, keys: seq<Field>, cur: string, late: bool)
    requires keys != []
    ensures var o := RenderKeys(p, t, keys[1..], cur, late);
      && (o.Panicked? && (exists j :: 0 <= j < |keys[1..]| && o.key == ColumnName(keys[1..][j])) ==>
            exists j :: 0 <= j < |keys| && o.key == ColumnName(keys[j]))
      && (o.Failed? && (exists j :: 0 <= j < |keys[1..]| && o.err.key == ColumnName(keys[1..][j]) && o.err.value == GetField(t, keys[1..][j])) ==>
            exists j :: 0 <= j < |keys| && o.err.key == ColumnName(keys[j]) && o.err.value == GetField(t, keys[j]))
  {
    var o := RenderKeys(p, t, keys[1..], cur, late);
    if o.Panicked? && exists j :: 0 <= j < |keys[1..]| && o.key == ColumnName(keys[1..][j]) {
      var j :| 0 <= j < |keys[1..]| && o.key == ColumnName(keys[1..][j]);
      assert keys[1..][j] == keys[j + 1];
    }
    if o.Failed? && exists j :: 0 <= j < |keys[1..]| && o.err.key == ColumnName(keys[1..][j]) && o.err.value == GetField(t, keys[1..][j]) {
      var j :| 0 <= j < |keys[1..]| && o.err.key == ColumnName(keys[1..][j]) && o.err.value == GetField(t, keys[1..][j]);
      assert keys[1..][j] == keys[j + 1];
    }
  }

  /** `NewName`, as written: the empty mask keeps the current file name. */
  function NewName(t: Track, mask: string, p: Printer): (o: Outcome)
    ensures mask == "" ==> o == Named(t.filename)
  {
    if mask == "" then Named(t.filename) else RenderKeys(p, t, Registry, mask, false)
  }

  /** `NewName` with the `%s` default applied after the markers are removed,
      so that a format made only of markers, such as `{title_}`, renders
      the value as a string instead of panicking. */
  function NewNameIntended(t: Track, mask: string, p: Printer): (o: Outcome)
    ensures mask == "" ==> o == Named(t.filename)
    ensures !o.Panicked?
  {
    if mask == "" then Named(t.filename)
    else
      RenderKeysNeverPanics(p, t, Registry, mask);
      RenderKeys(p, t, Registry, mask, true)
  }

  lemma {:induction false} RenderKeysNeverPanics(p: Printer, t: Track, keys: seq<Field>, cur: string)
    ensures !RenderKeys(p, t, keys, cur, true).Panicked?
    decreases |keys|
  {
    if keys != [] {
      var k := ColumnName(keys[0]);
      if FindToken(cur, k).None? {
        RenderKeysNeverPanics(p, t, keys[1..], cur);
        NoPanicSkip(p, t, keys, cur);
      } else {
        var tok := FindToken(cur, k).value;
        var o := RenderField(p, k, GetField(t, keys[0]), TokenFormat(cur, k, tok), true);
        if o.Named? {
          RenderKeysNeverPanics(p, t, keys[1..], ReplaceAll(cur, TokenText(cur, k, tok), o.name));
        }
        NoPanicStep(p, t, keys, cur, tok);
      }
    }
  }

  lemma NoPanicSkip(p: Printer, t: Track, keys: seq<Field>, cur: string)
    requires keys != [] && FindToken(cur, ColumnName(keys[0])).None?
    requires !RenderKeys(p, t, keys[1..], cur, true).Panicked?
    ensures !RenderKeys(p, t, keys, cur, true).Panicked?
  {
    RenderKeysSkip(p, t, keys, cur, true, 1);
  }

  lemma NoPanicStep(p: Printer, t: Track, keys: seq<Field>, cur: string, tok: Token)
    requires keys != [] && FindToken(cur, ColumnName(keys[0])) == Some(tok)
    requires var k := ColumnName(keys[0]);
      var o := RenderField(p, k, GetField(t, keys[0]), TokenFormat(cur, k, tok), true);
      o.Named? ==> !RenderKeys(p, t, keys[1..], ReplaceAll(cur, TokenText(cur, k, tok), o.name), true).Panicked?
    ensures !RenderKeys(p, t, keys, cur, true).Panicked?
  {
    RenderKeysStep(p, t, keys, cur, true, tok);
  }

  /** A mask without an opening `{key` for any field is returned as given. */
  lemma {:induction false} RenderKeysNoTokens(p: Printer, t: Track, keys: seq<Field>, cur: string, late: bool)
    requires forall f :: f in keys ==> !Contains(cur, "{" + ColumnName(f))
    ensures RenderKeys(p, t, keys, cur, late) == Named(cur)
    decreases |keys|
  {
    if keys != [] {
      NoTokenWithoutOpening(cur, ColumnName(keys[0]));
      RenderKeysNoTokens(p, t, keys[1..], cur, late);
    }
  }

  lemma NewNameNoTokens(t: Track, mask: string, p: Printer)
    requires mask != ""
    requires forall f: Field :: !Contains(mask, "{" + ColumnName(f))
    ensures NewName(t, mask, p) == Named(mask)
  {
    RenderKeysNoTokens(p, t, Registry, mask, false);
  }

  /** When the first field (in visiting order) that has a token in the mask
      fails to parse or panics, the whole rendering is that outcome: no
      partial name is produced. */
  lemma NewNameFirstTokenFails(t: Track, mask: string, p: Printer, j: nat)
    requires mask != "" && j < |Registry|
    requires forall i :: 0 <= i < j ==> FindToken(mask, ColumnName(Registry[i])).None?
    requires var k := ColumnName(Registry[j]);
      FindToken(mask, k).Some?
      && !RenderField(p, k, GetField(t, Registry[j]), TokenFormat(mask, k, FindToken(mask, k).value), false).Named?
    ensures var k := ColumnName(Registry[j]);
      NewName(t, mask, p)
        == RenderField(p, k, GetField(t, Registry[j]), TokenFormat(mask, k, FindToken(mask, k).value), false)
  {
    FirstTokenDecides(p, t, Registry, mask, false, j);
    assert NewName(t, mask, p) == RenderKeys(p, t, Registry, mask, false);
  }

  lemma FirstTokenDecides(p: Printer, t: Track, keys: seq<Field>, cur: string, late: bool, j: nat)
    requires j < |keys|
    requires forall i :: 0 <= i < j ==> FindToken(cur, ColumnName(keys[i])).None?
    requires var k := ColumnName(keys[j]);
      FindToken(cur, k).Some?
      && !RenderField(p, k, GetField(t, keys[j]), TokenFormat(cur, k, FindToken(cur, k).value), late).Named?
    ensures var k := ColumnName(keys[j]);
      RenderKeys(p, t, keys, cur, late)
        == RenderField(p, k, GetField(t, keys[j]), TokenFormat(cur, k, FindToken(cur, k).value), late)
  {
    RenderKeysSkip(p, t, keys, cur, late, j);
    var rest := keys[j..];
    assert rest[0] == keys[j];
    RenderKeysStep(p, t, rest, cur, late, FindToken(cur, ColumnName(keys[j])).value);
  }

  /** One step of the loop: the field's leftmost token is rendered from the
      field's value; a rendering replaces the token text and the loop goes
      on, anything else ends it. */
  lemma RenderKeysStep(p: Printer, t: Track, keys: seq<Field>, cur: string, late: bool, tok: Token)
    requires keys != [] && FindToken(cur, ColumnName(keys[0])) == Some(tok)
    ensures var k := ColumnName(keys[0]);
      var o := RenderField(p, k, GetField(t, keys[0]), TokenFormat(cur, k, tok), late);
      RenderKeys(p, t, keys, cur, late)
        == if o.Named? then RenderKeys(p, t, keys[1..], ReplaceAll(cur, TokenText(cur, k, tok), o.name), late) else o
  {
  }

  /** One replacement step: the text before the leftmost token is kept, the
      token becomes the rendering, and every later copy of the same token
      text is replaced as well. */
  lemma TokenReplacement(s: string, key: string, rendered: string)
    requires FindToken(s, key).Some?
    ensures var tok := FindToken(s, key).value;
      var text := TokenText(s, key, tok);
      ReplaceAll(s, text, rendered) == s[..tok.start] + rendered + ReplaceAll(s[tok.close + 1..], text, rendered)
  {
    var tok := FindToken(s, key).value;
    var text := TokenText(s, key, tok);
    var a := s[..tok.start];
    var b := s[tok.close + 1..];
    TokenTextShape(s, key, tok);
    NoEarlierOccurrence(s, key, text, tok.start);
    assert s == a + text + b;
    ReplaceAllLeftmost(a, text, b, rendered);
  }

  /** The matched text is `{`, the key, the format and `}`. */
  lemma TokenTextShape(s: string, key: string, tok: Token)
    requires TokenBounds(s, key, tok) && TokenAt(s, key, tok.start) && s[tok.close] == '}'
    ensures var text := TokenText(s, key, tok);
      |text| >= |key| + 2 && text[0] == '{' && text[1..1 + |key|] == key && text[|text| - 1] == '}'
  {
    var text := TokenText(s, key, tok);
    assert text[1..1 + |key|] == s[tok.start + 1..tok.start + 1 + |key|];
  }

  /** Before the leftmost token there is no copy of its text. */
  lemma NoEarlierOccurrence(s: string, key: string, text: string, start: nat)
    requires |text| >= |key| + 2
    requires text[0] == '{' && text[1..1 + |key|] == key && text[|text| - 1] == '}'
    requires forall j: nat :: j < start ==> !TokenAt(s, key, j)
    ensures forall i: nat :: i < start ==> !OccursAt(s, text, i)
  {
    forall i: nat | i < start
      ensures !OccursAt(s, text, i)
    {
      if OccursAt(s, text, i) {
        OccurrenceIsToken(s, key, text, i);
      }
    }
  }

  /** Another copy of a token's text is itself a token for the same key. */
  lemma OccurrenceIsToken(s: string, key: string, text: string, i: nat)
    requires |text| >= |key| + 2
    requires text[0] == '{' && text[1..1 + |key|] == key && text[|text| - 1] == '}'
    requires OccursAt(s, text, i)
    ensures TokenAt(s, key, i)
  {
    var occ := s[i..i + |text|];
    assert occ == text;
    assert s[i] == occ[0];
    assert forall d :: 0 <= d < |key| ==> s[i + 1 + d] == occ[1 + d] == key[d];
    assert s[i + 1..i + 1 + |key|] == key;
    assert s[i + |text| - 1] == occ[|text| - 1];
    assert s[i + 1 + |key|..][|text| - 2 - |key|] == '}';
  }

  // ---------------------------------------------------------------------------
  // Worked examples
  // ---------------------------------------------------------------------------

  /** A printer whose `%s` prints the string itself. */
  ghost predicate PlainStrings(p: Printer)
  {
    forall x :: p.sprintf("%s", StrArg(x)) == x
  }

  /** Fields whose tokens are absent can be skipped. */
  lemma {:induction false} RenderKeysSkip(p: Printer, t: Track, keys: seq<Field>, cur: string, late: bool, n: nat)
    requires n <= |keys|
    requires forall i :: 0 <= i < n ==> FindToken(cur, ColumnName(keys[i])).None?
    ensures RenderKeys(p, t, keys, cur, late) == RenderKeys(p, t, keys[n..], cur, late)
    decreases n
  {
    if n > 0 {
      assert FindToken(cur, ColumnName(keys[0])).None?;
      RenderKeysSkip(p, t, keys[1..], cur, late, n - 1);
      assert keys[1..][n - 1..] == keys[n..];
    }
  }

  /** In a text whose only `{` comes first, a key has a token only if the
      text continues with that key. */
  lemma SingleOpening(s: string, key: string, d: nat)
    requires |s| > 0 && s[0] == '{' && '{' !in s[1..]
    requires d < |key| && (1 + d >= |s| || s[1 + d] != key[d])
    ensures FindToken(s, key).None?
  {
    forall j: nat
      ensures !TokenAt(s, key, j)
    {
      if 0 < j < |s| {
        assert s[j] == s[1..][j - 1];
      }
      if j == 0 && 1 + |key| <= |s| {
        assert s[1..1 + |key|][d] == s[1 + d];
      }
    }
  }

  /** A text with no `{` has no tokens at all. */
  lemma NoOpening(s: string, key: string)
    requires '{' !in s
    ensures FindToken(s, key).None?
  {
    forall j: nat
      ensures !TokenAt(s, key, j)
    {
      if j < |s| {
        assert s[j] in s;
      }
    }
  }

  /** A format made only of the `_` marker leaves nothing to slice. */
  lemma UnderscoreOnlyFormat(p: Printer, key: string, v: string)
    ensures RenderField(p, key, v, "_", false) == Panicked(key)
    ensures PlainStrings(p) ==> RenderField(p, key, v, "_", true) == Named(ReplaceChar(v, ' ', '_'))
  {
    assert RemoveChar("_", '_') == [];
    assert PlainFormat("_", false) == [];
    assert PlainFormat("_", true) == "%s";
  }

  /** In a mask whose only `{` opens it and is followed by `ti`, no field
      visited before `title` has a token. */
  lemma TitleMaskSkips(m: string)
    requires |m| > 2 && m[0] == '{' && m[1] == 't' && m[2] == 'i' && '{' !in m[1..]
    ensures forall i :: 0 <= i < 12 ==> FindToken(m, ColumnName(Registry[i])).None?
  {
    forall i | 0 <= i < 12
      ensures FindToken(m, ColumnName(Registry[i])).None?
    {
      var k := ColumnName(Registry[i]);
      if Registry[i] == TrackNo {
        SingleOpening(m, k, 1);
      } else {
        assert k[0] != 't';
        SingleOpening(m, k, 0);
      }
    }
  }

  /** The token of `title` in `{title_}` is the whole mask, with the format `_`. */
  lemma TitleUnderscoreToken()
    ensures FindToken("{title_}", "title") == Some(Token(0, 7))
    ensures TokenText("{title_}", "title", Token(0, 7)) == "{title_}"
    ensures TokenFormat("{title_}", "title", Token(0, 7)) == "_"
  {
    var m := "{title_}";
    assert TokenAt(m, "title", 0);
    assert CloseFrom(m, 6) == 7;
    assert m[0..8] == m;
    assert m[6..7] == "_";
  }

  /** Rendering `{title_}` starts at the `title` field. */
  lemma TitleUnderscoreSkip(p: Printer, t: Track, late: bool)
    ensures RenderKeys(p, t, Registry, "{title_}", late)
      == RenderKeys(p, t, Registry[12..], "{title_}", late)
  {
    TitleMaskSkips("{title_}");
    RenderKeysSkip(p, t, Registry, "{title_}", late, 12);
  }

  /** When the whole text is the token of the next field, the rendering
      replaces the whole text. */
  lemma WholeTextToken(p: Printer, t: Track, keys: seq<Field>, m: string, late: bool)
    requires keys != [] && |m| > 0 && FindToken(m, ColumnName(keys[0])) == Some(Token(0, |m| - 1))
    ensures var k := ColumnName(keys[0]);
      var o := RenderField(p, k, GetField(t, keys[0]), TokenFormat(m, k, Token(0, |m| - 1)), late);
      RenderKeys(p, t, keys, m, late) == if o.Named? then RenderKeys(p, t, keys[1..], o.name, late) else o
  {
    var k := ColumnName(keys[0]);
    RenderKeysStep(p, t, keys, m, late, Token(0, |m| - 1));
    assert TokenText(m, k, Token(0, |m| - 1)) == m;
    var o := RenderField(p, k, GetField(t, keys[0]), TokenFormat(m, k, Token(0, |m| - 1)), late);
    if o.Named? {
      ReplaceWhole(m, o.name);
    }
  }

  /** The `title` step on the mask `{title_}`: the whole mask is the token. */
  lemma TitleUnderscoreStep(p: Printer, t: Track, late: bool, keys: seq<Field>)
    requires keys != [] && keys[0] == Title
    ensures var o := RenderField(p, "title", t.title, "_", late);
      RenderKeys(p, t, keys, "{title_}", late)
        == if o.Named? then RenderKeys(p, t, keys[1..], o.name, late) else o
  {
    TitleUnderscoreToken();
    WholeTextToken(p, t, keys, "{title_}", late);
  }

  /** As written, `{title_}` panics whatever the track holds. */
  lemma TitleUnderscoreMaskPanics(t: Track, p: Printer)
    ensures NewName(t, "{title_}", p) == Panicked("title")
  {
    TitleUnderscoreSkip(p, t, false);
    TitleUnderscoreStep(p, t, false, Registry[12..]);
    UnderscoreOnlyFormat(p, "title", t.title);
  }

  /** A text with no `{` left is the final name. */
  lemma {:induction false} RenderKeysNoOpening(p: Printer, t: Track, keys: seq<Field>, cur: string, late: bool)
    requires '{' !in cur
    ensures RenderKeys(p, t, keys, cur, late) == Named(cur)
    decreases |keys|
  {
    if keys != [] {
      NoOpening(cur, ColumnName(keys[0]));
      RenderKeysNoOpening(p, t, keys[1..], cur, late);
    }
  }

  /** Replacing a whole text by `rep` gives `rep`. */
  lemma ReplaceWhole(m: string, rep: string)
    requires m != []
    ensures ReplaceAll(m, m, rep) == rep
  {
    ReplaceAllLeftmost([], m, [], rep);
    assert [] + m + [] == m;
    assert [] + rep + [] == rep;
  }

  /** Under the intended reading the same mask renders the title with its
      spaces turned into underscores. */
  lemma TitleUnderscoreMaskIntended(t: Track, p: Printer)
    requires PlainStrings(p)
    requires '{' !in t.title
    ensures NewNameIntended(t, "{title_}", p) == Named(ReplaceChar(t.title, ' ', '_'))
  {
    TitleUnderscoreIntendedRender(t, p);
  }

  lemma TitleUnderscoreIntendedRender(t: Track, p: Printer)
    requires PlainStrings(p)
    requires '{' !in t.title
    ensures RenderKeys(p, t, Registry, "{title_}", true) == Named(ReplaceChar(t.title, ' ', '_'))
  {
    var r := ReplaceChar(t.title, ' ', '_');
    TitleUnderscoreSkip(p, t, true);
    TitleUnderscoreStep(p, t, true, Registry[12..]);
    UnderscoreOnlyFormat(p, "title", t.title);
    ReplaceCharKeepsOthers(t.title, ' ', '_', '{');
    RenderKeysNoOpening(p, t, Registry[12..][1..], r, true);
  }

  /** An empty format prints the value as a string. */
  lemma PlainRender(p: Printer, key: string, v: string, late: bool)
    requires PlainStrings(p)
    ensures RenderField(p, key, v, "", late) == Named(v)
  {
    assert PlainFormat("", late) == "%s";
  }

  /** The token of `title` in `{title}` is the whole mask, with no format. */
  lemma PlainTitleToken()
    ensures FindToken("{title}", "title") == Some(Token(0, 6))
    ensures TokenFormat("{title}", "title", Token(0, 6)) == ""
  {
    var m := "{title}";
    assert TokenAt(m, "title", 0);
    assert CloseFrom(m, 6) == 6;
  }

  /** The mask `{title}` renders the title as it is. */
  lemma PlainTitleMask(t: Track, p: Printer)
    requires PlainStrings(p)
    requires '{' !in t.title
    ensures NewName(t, "{title}", p) == Named(t.title)
  {
    PlainTitleRender(t, p);
  }

  lemma PlainTitleRender(t: Track, p: Printer)
    requires PlainStrings(p)
    requires '{' !in t.title
    ensures RenderKeys(p, t, Registry, "{title}", false) == Named(t.title)
  {
    PlainTitleSkip(p, t);
    PlainTitleStep(p, t, Registry[12..]);
    RenderKeysNoOpening(p, t, Registry[12..][1..], t.title, false);
  }

  lemma PlainTitleSkip(p: Printer, t: Track)
    ensures RenderKeys(p, t, Registry, "{title}", false)
      == RenderKeys(p, t, Registry[12..], "{title}", false)
  {
    TitleMaskSkips("{title}");
    RenderKeysSkip(p, t, Registry, "{title}", false, 12);
  }

  lemma PlainTitleStep(p: Printer, t: Track, keys: seq<Field>)
    requires PlainStrings(p)
    requires keys != [] && keys[0] == Title
    ensures RenderKeys(p, t, keys, "{title}", false) == RenderKeys(p, t, keys[1..], t.title, false)
  {
    PlainTitleToken();
    WholeTextToken(p, t, keys, "{title}", false);
    PlainRender(p, "title", t.title, false);
  }
}
