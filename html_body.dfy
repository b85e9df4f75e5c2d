/**
 * The HTML part of every message (app.py:610-644): the typed body is escaped,
 * its line breaks become `<br>` tags, runs of spaces and tabs become
 * non-breaking spaces, and the result is wrapped in a fixed `<div>`.
 */
module HtmlBody {
  import opened Text

  /** The marker the source puts in place of a blank line before mapping single breaks. */
  const Placeholder: string := "|||DOUBLE_BREAK|||"

  const Break: string := "<br>"
  const DoubleBreak: string := "<br><br>"
  const TwoSpaces: string := "&nbsp;&nbsp;"
  const TabSpaces: string := "&nbsp;&nbsp;&nbsp;&nbsp;"

  /** The fixed text in front of the converted body. */
  const Prefix: string := "\n    <div style=\"font-family: 'Segoe UI', Tahoma, Geneva, Verdana, sans-serif; \n                font-size: 14px; \n                line-height: 1.2; \n                color: #333333;\n                margin: 0;\n                padding: 0;\">\n        "

  /** The fixed text after the converted body. */
  const Suffix: string := "\n    </div>\n    "

  /** `html.escape` of one character (with `quote=True`). */
  function EscapeChar(c: char): string {
    if c == '&' then "&amp;"
    else if c == '<' then "&lt;"
    else if c == '>' then "&gt;"
    else if c == '"' then "&quot;"
    else if c == '\'' then "&#x27;"
    else [c]
  }

  /** `html.escape(s)`: `&` first, so the five replacements act character by character. */
  function Escape(s: string): string
    decreases |s|
  {
    if s == [] then [] else EscapeChar(s[0]) + Escape(s[1..])
  }

  /** Decoding of the five entities `Escape` produces; any other text is kept. */
  function Unescape(s: string): string
    decreases |s|
  {
    if s == [] then []
    else if s[0] != '&' then [s[0]] + Unescape(s[1..])
    else if "&amp;" <= s then "&" + Unescape(s[5..])
    else if "&lt;" <= s then "<" + Unescape(s[4..])
    else if "&gt;" <= s then ">" + Unescape(s[4..])
    else if "&quot;" <= s then "\"" + Unescape(s[6..])
    else if "&#x27;" <= s then "'" + Unescape(s[6..])
    else [s[0]] + Unescape(s[1..])
  }

  /** Decoding undoes the escaping of one character. */
  lemma UnescapeEscapeChar(c: char, rest: string)
    ensures Unescape(EscapeChar(c) + rest) == [c] + Unescape(rest)
  {
    var e := EscapeChar(c);
    var t := e + rest;
    assert t[|e|..] == rest;
    if c == '&' {
      assert "&amp;" <= t;
    } else if c == '<' {
      assert t[1] == 'l';
      assert "&lt;" <= t;
    } else if c == '>' {
      assert t[1] == 'g';
      assert "&gt;" <= t;
    } else if c == '"' {
      assert t[1] == 'q';
      assert "&quot;" <= t;
    } else if c == '\'' {
      assert t[1] == '#';
      assert "&#x27;" <= t;
    } else {
      assert t[0] == c;
    }
  }

  /** Escaping loses nothing: decoding the entities gives the typed text back. */
  lemma {:induction false} UnescapeEscape(s: string)
    ensures Unescape(Escape(s)) == s
    decreases |s|
  {
    if s != [] {
      UnescapeEscape(s[1..]);
      UnescapeEscapeChar(s[0], Escape(s[1..]));
      assert [s[0]] + s[1..] == s;
    }
  }

  /** The characters that must not reach the HTML part unescaped. */
  predicate Safe(c: char) {
    c != '<' && c != '>' && c != '"' && c != '\''
  }

  predicate AllSafe(s: string) {
    forall k :: 0 <= k < |s| ==> Safe(s[k])
  }

  /**
   * The converted body is markup made only of `<br>` tags and safe
   * characters: every `<`, `>`, `"` and `'` in it belongs to a `<br>` tag.
   */
  predicate Markup(s: string)
    decreases |s|
  {
    if s == [] then true
    else if s[0] == '<' then Break <= s && Markup(s[4..])
    else Safe(s[0]) && Markup(s[1..])
  }

  /** Escaped text holds none of the unsafe characters. */
  lemma {:induction false} EscapeIsSafe(s: string)
    ensures AllSafe(Escape(s))
    decreases |s|
  {
    if s != [] {
      EscapeIsSafe(s[1..]);
      var e := EscapeChar(s[0]);
      assert AllSafe(e);
      assert Escape(s) == e + Escape(s[1..]);
    }
  }

  /** Text of safe characters is markup. */
  lemma {:induction false} SafeIsMarkup(s: string)
    requires AllSafe(s)
    ensures Markup(s)
    decreases |s|
  {
    if s != [] {
      SafeIsMarkup(s[1..]);
    }
  }

  /** Markup followed by markup is markup. */
  lemma {:induction false} MarkupAppend(a: string, b: string)
    requires Markup(a) && Markup(b)
    ensures Markup(a + b)
    decreases |a|
  {
    if a == [] {
      assert a + b == b;
    } else if a[0] == '<' {
      assert (a + b)[..4] == a[..4];
      assert (a + b)[4..] == a[4..] + b;
      MarkupAppend(a[4..], b);
    } else {
      assert (a + b)[1..] == a[1..] + b;
      MarkupAppend(a[1..], b);
    }
  }

  /** Dropping a run of safe characters from the front of markup leaves markup. */
  lemma {:induction false} MarkupDropSafe(s: string, n: nat)
    requires Markup(s) && n <= |s|
    requires forall k :: 0 <= k < n ==> Safe(s[k])
    ensures Markup(s[n..])
    decreases n
  {
    if n > 0 {
      assert s[1..][n - 1..] == s[n..];
      MarkupDropSafe(s[1..], n - 1);
    }
  }

  /** Text that cannot start a pattern match is copied through unchanged. */
  lemma {:induction false} ReplaceSkip(w: string, s: string, pat: string, rep: string)
    requires |pat| > 0 && pat[0] !in w
    ensures Replace(w + s, pat, rep) == w + Replace(s, pat, rep)
    decreases |w|
  {
    if w != [] {
      assert w + s == [w[0]] + (w[1..] + s);
      ReplaceCons(w[0], w[1..] + s, pat, rep);
      ReplaceSkip(w[1..], s, pat, rep);
      assert [w[0]] + w[1..] == w;
    } else {
      assert w + s == s;
    }
  }

  /** The patterns the conversion replaces are harmless to markup. */
  predicate HarmlessPattern(pat: string) {
    |pat| > 0 && AllSafe(pat) && pat[0] != 'b' && pat[0] != 'r'
  }

  /** Replacing a harmless pattern by markup keeps markup (it never cuts into a `<br>` tag). */
  lemma {:induction false} ReplaceKeepsMarkup(s: string, pat: string, rep: string)
    requires HarmlessPattern(pat) && (AllSafe(rep) || Markup(rep)) && Markup(s)
    ensures Markup(Replace(s, pat, rep))
    decreases |s|
  {
    if AllSafe(rep) {
      SafeIsMarkup(rep);
    }
    if s != [] {
      if pat <= s {
        MarkupDropSafe(s, |pat|);
        ReplaceKeepsMarkup(s[|pat|..], pat, rep);
        MarkupAppend(rep, Replace(s[|pat|..], pat, rep));
      } else if s[0] == '<' {
        var rest := s[4..];
        assert s == Break + rest;
        assert pat[0] !in Break;
        ReplaceSkip(Break, rest, pat, rep);
        ReplaceKeepsMarkup(rest, pat, rep);
        var r := Replace(rest, pat, rep);
        assert (Break + r)[4..] == r;
      } else {
        ReplaceKeepsMarkup(s[1..], pat, rep);
        var r := Replace(s[1..], pat, rep);
        assert ([s[0]] + r)[1..] == r;
      }
    }
  }

  /**
   * The text starts with one of the entities the conversion writes: the
   * five of `html.escape` and the non-breaking space.
   */
  predicate EntityAtFront(s: string) {
    "&amp;" <= s || "&lt;" <= s || "&gt;" <= s || "&quot;" <= s || "&#x27;" <= s || "&nbsp;" <= s
  }

  /** Every `&` in the text starts an entity: no ampersand stands alone. */
  predicate EntitiesOnly(s: string)
    decreases |s|
  {
    if s == [] then true
    else if s[0] == '&' then EntityAtFront(s) && EntitiesOnly(s[1..])
    else EntitiesOnly(s[1..])
  }

  /** The rest of such a text is such a text. */
  lemma {:induction false} EntitiesOnlySuffix(s: string, n: nat)
    requires EntitiesOnly(s) && n <= |s|
    ensures EntitiesOnly(s[n..])
    decreases n
  {
    if n > 0 {
      assert s[1..][n - 1..] == s[n..];
      EntitiesOnlySuffix(s[1..], n - 1);
    }
  }

  /** An entity at the front stays at the front when text follows. */
  lemma EntityAtFrontAppend(a: string, b: string)
    requires EntityAtFront(a)
    ensures EntityAtFront(a + b)
  {
  }

  /** Two texts whose ampersands start entities join into one. */
  lemma {:induction false} EntitiesOnlyAppend(a: string, b: string)
    requires EntitiesOnly(a) && EntitiesOnly(b)
    ensures EntitiesOnly(a + b)
    decreases |a|
  {
    if a == [] {
      assert a + b == b;
    } else {
      assert (a + b)[1..] == a[1..] + b;
      EntitiesOnlyAppend(a[1..], b);
      if a[0] == '&' {
        EntityAtFrontAppend(a, b);
      }
    }
  }

  /** Text without an ampersand trivially qualifies. */
  lemma {:induction false} NoAmpersandEntitiesOnly(s: string)
    requires '&' !in s
    ensures EntitiesOnly(s)
    decreases |s|
  {
    if s != [] {
      NoAmpersandEntitiesOnly(s[1..]);
    }
  }

  /** An entity qualifies: its only ampersand is its first character. */
  lemma EntityEntitiesOnly(rest: string)
    requires '&' !in rest && EntityAtFront(['&'] + rest)
    ensures EntitiesOnly(['&'] + rest)
  {
    assert (['&'] + rest)[1..] == rest;
    NoAmpersandEntitiesOnly(rest);
  }

  /** Escaping leaves no bare ampersand: every `&` it writes starts the entity it stands for. */
  lemma {:induction false} EscapeEntitiesOnly(s: string)
    ensures EntitiesOnly(Escape(s))
    decreases |s|
  {
    if s != [] {
      EscapeEntitiesOnly(s[1..]);
      var c := s[0];
      if c == '&' {
        assert "&amp;" == ['&'] + "amp;";
        EntityEntitiesOnly("amp;");
      } else if c == '<' {
        assert "&lt;" == ['&'] + "lt;";
        EntityEntitiesOnly("lt;");
      } else if c == '>' {
        assert "&gt;" == ['&'] + "gt;";
        EntityEntitiesOnly("gt;");
      } else if c == '"' {
        assert "&quot;" == ['&'] + "quot;";
        EntityEntitiesOnly("quot;");
      } else if c == '\'' {
        assert "&#x27;" == ['&'] + "#x27;";
        EntityEntitiesOnly("#x27;");
      } else {
        NoAmpersandEntitiesOnly([c]);
      }
      EntitiesOnlyAppend(EscapeChar(c), Escape(s[1..]));
    }
  }

  /** The characters that follow the `&` of an entity. */
  const EntityInner: set<char> := {'a', 'm', 'p', ';', 'l', 't', 'g', 'q', 'u', 'o', '#', 'x', '2', '7', 'n', 'b', 's'}

  /** A pattern that cannot start inside an entity. */
  predicate SparesEntities(pat: string) {
    |pat| > 0 && pat[0] !in EntityInner
  }

  /** An entity at the front of the text survives a replacement whose pattern cannot start inside it. */
  lemma EntityCopied(s: string, e: string, pat: string, rep: string)
    requires |pat| > 0 && |e| > 0 && e <= s && pat[0] !in e[1..]
    ensures e <= [s[0]] + Replace(s[1..], pat, rep)
  {
    var w := e[1..];
    assert s[1..] == w + s[|e|..];
    ReplaceSkip(w, s[|e|..], pat, rep);
    assert [s[0]] + w == e;
    assert [s[0]] + Replace(s[1..], pat, rep) == e + Replace(s[|e|..], pat, rep);
  }

  /** The entity at the front of the text survives a replacement of a sparing pattern. */
  lemma EntityAtFrontCopied(s: string, pat: string, rep: string)
    requires SparesEntities(pat) && EntityAtFront(s)
    ensures EntityAtFront([s[0]] + Replace(s[1..], pat, rep))
  {
    if "&amp;" <= s {
      EntityCopied(s, "&amp;", pat, rep);
    } else if "&lt;" <= s {
      EntityCopied(s, "&lt;", pat, rep);
    } else if "&gt;" <= s {
      EntityCopied(s, "&gt;", pat, rep);
    } else if "&quot;" <= s {
      EntityCopied(s, "&quot;", pat, rep);
    } else if "&#x27;" <= s {
      EntityCopied(s, "&#x27;", pat, rep);
    } else {
      EntityCopied(s, "&nbsp;", pat, rep);
    }
  }

  /** Replacing such a pattern by qualifying text never leaves an ampersand without its entity. */
  lemma {:induction false} ReplaceKeepsEntities(s: string, pat: string, rep: string)
    requires SparesEntities(pat) && EntitiesOnly(rep) && EntitiesOnly(s)
    ensures EntitiesOnly(Replace(s, pat, rep))
    decreases |s|
  {
    if s != [] {
      if pat <= s {
        EntitiesOnlySuffix(s, |pat|);
        ReplaceKeepsEntities(s[|pat|..], pat, rep);
        EntitiesOnlyAppend(rep, Replace(s[|pat|..], pat, rep));
      } else {
        ReplaceKeepsEntities(s[1..], pat, rep);
        var t := [s[0]] + Replace(s[1..], pat, rep);
        assert t[1..] == Replace(s[1..], pat, rep);
        if s[0] == '&' {
          EntityAtFrontCopied(s, pat, rep);
        }
      }
    }
  }

  /** One non-breaking space qualifies. */
  lemma NbspEntitiesOnly()
    ensures EntitiesOnly("&nbsp;")
  {
    var rest := "nbsp;";
    assert "&nbsp;" == ['&'] + rest;
    assert "&nbsp;" <= ['&'] + rest;
    EntityEntitiesOnly(rest);
  }

  /** The non-breaking spaces qualify. */
  lemma SpacingEntitiesOnly()
    ensures EntitiesOnly(TwoSpaces) && EntitiesOnly(TabSpaces)
  {
    NbspEntitiesOnly();
    EntitiesOnlyAppend("&nbsp;", "&nbsp;");
    assert TwoSpaces == "&nbsp;" + "&nbsp;";
    EntitiesOnlyAppend(TwoSpaces, TwoSpaces);
    assert TabSpaces == TwoSpaces + TwoSpaces;
  }

  /** Step 2 of the conversion: CRLF and lone CR become LF. */
  function NormalizeNewlines(s: string): string {
    Replace(Replace(s, "\r\n", "\n"), "\r", "\n")
  }

  /** Step 3 as the source writes it: blank lines through a placeholder, then single breaks. */
  function BreakLinesAsWritten(s: string): string {
    Replace(Replace(Replace(s, "\n\n", Placeholder), "\n", Break), Placeholder, DoubleBreak)
  }

  /** Step 3 as intended: every line feed becomes one `<br>` (so a blank line becomes `<br><br>`). */
  function BreakLines(s: string): string {
    Replace(s, "\n", Break)
  }

  /** Step 4: two spaces become two `&nbsp;`, a tab four. */
  function KeepSpacing(s: string): string {
    Replace(Replace(s, "  ", TwoSpaces), "\t", TabSpaces)
  }

  /** The converted body as the source computes it. */
  function ContentAsWritten(s: string): string {
    KeepSpacing(BreakLinesAsWritten(NormalizeNewlines(Escape(s))))
  }

  /** The converted body with line breaks mapped as intended. */
  function Content(s: string): string {
    KeepSpacing(BreakLines(NormalizeNewlines(Escape(s))))
  }

  /** `format_email_content` as the source computes it. */
  function FormatEmailContentAsWritten(s: string): (r: string)
    ensures |r| >= |Prefix| + |Suffix|
    ensures r[..|Prefix|] == Prefix && r[|r| - |Suffix|..] == Suffix
  {
    var r := Prefix + ContentAsWritten(s) + Suffix;
    assert r[..|Prefix|] == Prefix;
    r
  }

  /** `format_email_content` with line breaks mapped as intended: the fixed prefix, the body, the fixed suffix. */
  function FormatEmailContent(s: string): (r: string)
    ensures |r| >= |Prefix| + |Suffix|
    ensures r[..|Prefix|] == Prefix && r[|r| - |Suffix|..] == Suffix
    ensures r[|Prefix|..|r| - |Suffix|] == Content(s)
  {
    var r := Prefix + Content(s) + Suffix;
    assert r[..|Prefix|] == Prefix;
    assert r[|Prefix|..|r| - |Suffix|] == Content(s);
    r
  }

  /** The patterns and replacements the conversion uses. */
  lemma ConversionPieces()
    ensures HarmlessPattern("\r\n") && HarmlessPattern("\r") && HarmlessPattern("\n\n")
    ensures HarmlessPattern("\n") && HarmlessPattern(Placeholder)
    ensures HarmlessPattern("  ") && HarmlessPattern("\t")
    ensures AllSafe("\n") && AllSafe(Placeholder) && AllSafe(TwoSpaces) && AllSafe(TabSpaces)
    ensures Markup(Break) && Markup(DoubleBreak)
  {
  }

  /** None of the conversion's patterns can start inside an entity. */
  lemma PatternsSpareEntities()
    ensures SparesEntities("\r\n") && SparesEntities("\r") && SparesEntities("\n\n")
    ensures SparesEntities("\n") && SparesEntities(Placeholder)
    ensures SparesEntities("  ") && SparesEntities("\t")
  {
  }

  /** Every replacement text of the conversion qualifies. */
  lemma ReplacementsQualify()
    ensures EntitiesOnly("\n") && EntitiesOnly(Break) && EntitiesOnly(Placeholder) && EntitiesOnly(DoubleBreak)
    ensures EntitiesOnly(TwoSpaces) && EntitiesOnly(TabSpaces)
  {
    NoAmpersandEntitiesOnly("\n");
    NoAmpersandEntitiesOnly(Break);
    NoAmpersandEntitiesOnly(Placeholder);
    NoAmpersandEntitiesOnly(DoubleBreak);
    SpacingEntitiesOnly();
  }

  /** The facts about patterns and replacements that the conversion steps need. */
  lemma EntityPieces()
    ensures SparesEntities("\r\n") && SparesEntities("\r") && SparesEntities("\n\n")
    ensures SparesEntities("\n") && SparesEntities(Placeholder)
    ensures SparesEntities("  ") && SparesEntities("\t")
    ensures EntitiesOnly("\n") && EntitiesOnly(Break) && EntitiesOnly(Placeholder) && EntitiesOnly(DoubleBreak)
    ensures EntitiesOnly(TwoSpaces) && EntitiesOnly(TabSpaces)
  {
    PatternsSpareEntities();
    ReplacementsQualify();
  }

  /** Newline normalisation keeps markup and leaves no bare ampersand. */
  lemma NormalizeKeepsMarkup(s: string)
    requires Markup(s) && EntitiesOnly(s)
    ensures Markup(NormalizeNewlines(s)) && EntitiesOnly(NormalizeNewlines(s))
  {
    ConversionPieces();
    EntityPieces();
    var m := Replace(s, "\r\n", "\n");
    ReplaceKeepsMarkup(s, "\r\n", "\n");
    ReplaceKeepsMarkup(m, "\r", "\n");
    ReplaceKeepsEntities(s, "\r\n", "\n");
    ReplaceKeepsEntities(m, "\r", "\n");
  }

  /** Line-break conversion, either version, keeps markup and leaves no bare ampersand. */
  lemma BreakLinesKeepMarkup(s: string)
    requires Markup(s) && EntitiesOnly(s)
    ensures Markup(BreakLines(s)) && Markup(BreakLinesAsWritten(s))
    ensures EntitiesOnly(BreakLines(s)) && EntitiesOnly(BreakLinesAsWritten(s))
  {
    ConversionPieces();
    EntityPieces();
    ReplaceKeepsMarkup(s, "\n", Break);
    ReplaceKeepsEntities(s, "\n", Break);
    var p1 := Replace(s, "\n\n", Placeholder);
    var p2 := Replace(p1, "\n", Break);
    ReplaceKeepsMarkup(s, "\n\n", Placeholder);
    ReplaceKeepsMarkup(p1, "\n", Break);
    ReplaceKeepsMarkup(p2, Placeholder, DoubleBreak);
    ReplaceKeepsEntities(s, "\n\n", Placeholder);
    ReplaceKeepsEntities(p1, "\n", Break);
    ReplaceKeepsEntities(p2, Placeholder, DoubleBreak);
  }

  /** Spacing conversion keeps markup and leaves no bare ampersand. */
  lemma KeepSpacingKeepsMarkup(s: string)
    requires Markup(s) && EntitiesOnly(s)
    ensures Markup(KeepSpacing(s)) && EntitiesOnly(KeepSpacing(s))
  {
    ConversionPieces();
    EntityPieces();
    var m := Replace(s, "  ", TwoSpaces);
    ReplaceKeepsMarkup(s, "  ", TwoSpaces);
    ReplaceKeepsMarkup(m, "\t", TabSpaces);
    ReplaceKeepsEntities(s, "  ", TwoSpaces);
    ReplaceKeepsEntities(m, "\t", TabSpaces);
  }

  /**
   * Escaping runs first, so the only tags in the body are the `<br>` tags the
   * conversion adds, and every `&` in it starts an entity: an ampersand of the
   * input shows only as `&amp;`.
   */
  lemma ContentIsMarkup(s: string)
    ensures Markup(Content(s)) && EntitiesOnly(Content(s))
    ensures Markup(ContentAsWritten(s)) && EntitiesOnly(ContentAsWritten(s))
  {
    EscapeIsSafe(s);
    SafeIsMarkup(Escape(s));
    EscapeEntitiesOnly(s);
    var n := NormalizeNewlines(Escape(s));
    NormalizeKeepsMarkup(Escape(s));
    BreakLinesKeepMarkup(n);
    KeepSpacingKeepsMarkup(BreakLines(n));
    KeepSpacingKeepsMarkup(BreakLinesAsWritten(n));
  }

  /** Two spaces at the front become two non-breaking spaces, and the rest converts on its own. */
  lemma KeepSpacingTwoSpaces(b: string)
    ensures KeepSpacing("  " + b) == TwoSpaces + KeepSpacing(b)
  {
    ReplaceFront(b, "  ", TwoSpaces);
    ReplaceSkip(TwoSpaces, Replace(b, "  ", TwoSpaces), "\t", TabSpaces);
  }

  /** No carriage return, line feed or tab survives into the body. */
  lemma ContentHasNoRawBreaks(s: string)
    ensures '\r' !in Content(s) && '\n' !in Content(s) && '\t' !in Content(s)
    ensures '\r' !in ContentAsWritten(s) && '\n' !in ContentAsWritten(s) && '\t' !in ContentAsWritten(s)
  {
    var e := Escape(s);
    var m := Replace(e, "\r\n", "\n");
    ReplaceRemovesChar(m, '\r', "\n");
    var n := NormalizeNewlines(e);
    ReplaceRemovesChar(n, '\n', Break);
    ReplaceKeepsAbsent(n, "\n", Break, '\r');
    var b := BreakLines(n);
    ReplaceKeepsAbsent(b, "  ", TwoSpaces, '\r');
    ReplaceKeepsAbsent(b, "  ", TwoSpaces, '\n');
    var b2 := Replace(b, "  ", TwoSpaces);
    ReplaceKeepsAbsent(b2, "\t", TabSpaces, '\r');
    ReplaceKeepsAbsent(b2, "\t", TabSpaces, '\n');
    ReplaceRemovesChar(b2, '\t', TabSpaces);

    ReplaceKeepsAbsent(n, "\n\n", Placeholder, '\r');
    var p1 := Replace(n, "\n\n", Placeholder);
    ReplaceRemovesChar(p1, '\n', Break);
    ReplaceKeepsAbsent(p1, "\n", Break, '\r');
    var p2 := Replace(p1, "\n", Break);
    ReplaceKeepsAbsent(p2, Placeholder, DoubleBreak, '\r');
    ReplaceKeepsAbsent(p2, Placeholder, DoubleBreak, '\n');
    var w := BreakLinesAsWritten(n);
    ReplaceKeepsAbsent(w, "  ", TwoSpaces, '\r');
    ReplaceKeepsAbsent(w, "  ", TwoSpaces, '\n');
    var w2 := Replace(w, "  ", TwoSpaces);
    ReplaceKeepsAbsent(w2, "\t", TabSpaces, '\r');
    ReplaceKeepsAbsent(w2, "\t", TabSpaces, '\n');
    ReplaceRemovesChar(w2, '\t', TabSpaces);
  }

  /** Each line feed becomes exactly one `<br>`; text between line feeds is kept. */
  lemma BreakLinesAtLineFeed(a: string, b: string)
    ensures BreakLines(a + "\n" + b) == BreakLines(a) + Break + BreakLines(b)
  {
    ReplaceCharAppend(a + "\n", b, '\n', Break);
    ReplaceCharAppend(a, "\n", '\n', Break);
    assert Replace("\n", "\n", Break) == Break + Replace("", "\n", Break);
  }

  /** Text without a line feed passes through unchanged. */
  lemma BreakLinesWithoutLineFeed(s: string)
    requires '\n' !in s
    ensures BreakLines(s) == s
  {
    ReplaceAbsent(s, "\n", Break);
  }

  /** As written, a leading blank line becomes `<br><br>` in front of the rest's conversion. */
  lemma AsWrittenBlankFront(u: string)
    ensures BreakLinesAsWritten("\n\n" + u) == DoubleBreak + BreakLinesAsWritten(u)
  {
    var s1 := Replace(u, "\n\n", Placeholder);
    var s2 := Replace(s1, "\n", Break);
    ReplaceFront(u, "\n\n", Placeholder);
    ReplaceSkip(Placeholder, s1, "\n", Break);
    ReplaceFront(s2, Placeholder, DoubleBreak);
  }

  /** As intended, a leading blank line becomes `<br><br>` in front of the rest's conversion. */
  lemma IntendedBlankFront(u: string)
    ensures BreakLines("\n\n" + u) == DoubleBreak + BreakLines(u)
  {
    BreakLinesAtLineFeed("", "\n" + u);
    BreakLinesAtLineFeed("", u);
    assert "" + "\n" + u == "\n" + u;
    assert "" + "\n" + ("\n" + u) == "\n\n" + u;
    assert Replace("", "\n", Break) == "";
  }

  /** The two conversions agree on a blank line in front of a text they agree on. */
  lemma AgreeAtBlankLine(u: string)
    requires BreakLinesAsWritten(u) == BreakLines(u)
    ensures BreakLinesAsWritten("\n\n" + u) == BreakLines("\n\n" + u)
  {
    AsWrittenBlankFront(u);
    IntendedBlankFront(u);
  }

  /** The two conversions agree on a single line feed in front of a text they agree on. */
  lemma AgreeAtLineFeed(u: string)
    requires BreakLinesAsWritten(u) == BreakLines(u)
    requires !("\n" <= u)
    ensures BreakLinesAsWritten("\n" + u) == BreakLines("\n" + u)
  {
    var s1 := Replace(u, "\n\n", Placeholder);
    var s2 := Replace(s1, "\n", Break);
    assert ("\n" + u)[1..] == u;
    assert Replace("\n" + u, "\n\n", Placeholder) == "\n" + s1;
    ReplaceFront(s1, "\n", Break);
    ReplaceSkip(Break, s2, Placeholder, DoubleBreak);
    ReplaceFront(u, "\n", Break);
  }

  /** The two conversions agree on an ordinary character in front of a text they agree on. */
  lemma AgreeAtChar(c: char, u: string)
    requires BreakLinesAsWritten(u) == BreakLines(u)
    requires c != '\n' && c != '|'
    ensures BreakLinesAsWritten([c] + u) == BreakLines([c] + u)
  {
    var s1 := Replace(u, "\n\n", Placeholder);
    var s2 := Replace(s1, "\n", Break);
    ReplaceCons(c, u, "\n\n", Placeholder);
    ReplaceCons(c, s1, "\n", Break);
    ReplaceCons(c, s2, Placeholder, DoubleBreak);
    ReplaceCons(c, u, "\n", Break);
  }

  /** The placeholder pipeline agrees with the intended mapping on text without a `|`. */
  lemma {:induction false} BreakLinesAgreeWithoutBar(s: string)
    requires '|' !in s
    ensures BreakLinesAsWritten(s) == BreakLines(s)
    decreases |s|
  {
    if s != [] {
      if "\n\n" <= s {
        var u := s[2..];
        assert s == "\n\n" + u;
        BreakLinesAgreeWithoutBar(u);
        AgreeAtBlankLine(u);
      } else {
        var u := s[1..];
        assert s == [s[0]] + u;
        BreakLinesAgreeWithoutBar(u);
        if s[0] == '\n' {
          assert s == "\n" + u;
          AgreeAtLineFeed(u);
        } else {
          AgreeAtChar(s[0], u);
        }
      }
    }
  }

  /** Escaping introduces no `|`. */
  lemma {:induction false} EscapeKeepsBarAbsent(s: string)
    requires '|' !in s
    ensures '|' !in Escape(s)
    decreases |s|
  {
    if s != [] {
      EscapeKeepsBarAbsent(s[1..]);
      assert Escape(s) == EscapeChar(s[0]) + Escape(s[1..]);
    }
  }

  /** For a body without a `|`, the source's conversion is the intended one. */
  lemma AsWrittenAgreesWithoutBar(s: string)
    requires '|' !in s
    ensures FormatEmailContentAsWritten(s) == FormatEmailContent(s)
  {
    var e := Escape(s);
    EscapeKeepsBarAbsent(s);
    ReplaceKeepsAbsent(e, "\r\n", "\n", '|');
    ReplaceKeepsAbsent(Replace(e, "\r\n", "\n"), "\r", "\n", '|');
    BreakLinesAgreeWithoutBar(NormalizeNewlines(e));
  }

  /** The text that shows the placeholder colliding with typed text. */
  const Collision: string := "|||DOUBLE_BREAK"

  /** The source's conversion of a line followed by a blank line: the placeholder replacement sees the line too. */
  lemma BlankLineAsWritten(x: string)
    requires '\n' !in x
    ensures BreakLinesAsWritten(x + "\n\n") == Replace(x + Placeholder, Placeholder, DoubleBreak)
  {
    ReplaceSkip(x, "\n\n", "\n\n", Placeholder);
    ReplaceFront("", "\n\n", Placeholder);
    assert "\n\n" + "" == "\n\n";
    assert Placeholder + "" == Placeholder;
    ReplaceAbsent(x + Placeholder, "\n", Break);
  }

  /** The intended conversion of a line followed by a blank line. */
  lemma BlankLineIntended(x: string)
    requires '\n' !in x
    ensures BreakLines(x + "\n\n") == x + DoubleBreak
  {
    BreakLinesAtLineFeed(x + "\n", "");
    BreakLinesAtLineFeed(x, "");
    BreakLinesWithoutLineFeed(x);
    assert x + "\n" + "" == x + "\n";
    assert x + "\n" + "\n" + "" == x + "\n\n";
    assert BreakLines("") == "";
    assert BreakLines(x + "\n") == x + Break;
    assert Break + Break == DoubleBreak;
  }

  /** The line-break step on the colliding body: the source starts with a tag, the intended mapping with the text. */
  lemma CollisionHeads()
    ensures BreakLinesAsWritten(Collision + "\n\n") != [] && BreakLinesAsWritten(Collision + "\n\n")[0] == '<'
    ensures BreakLines(Collision + "\n\n") != [] && BreakLines(Collision + "\n\n")[0] == '|'
  {
    BlankLineAsWritten(Collision);
    BlankLineIntended(Collision);
    assert Placeholder <= Collision + Placeholder;
    ReplaceHead(Collision + Placeholder, Placeholder, DoubleBreak);
  }

  /** Escaping and newline normalisation leave text without special characters and CRs as it is. */
  lemma PlainIsUnchanged(s: string)
    requires forall k :: 0 <= k < |s| ==> s[k] !in "&<>\"'"
    requires '\r' !in s
    ensures NormalizeNewlines(Escape(s)) == s
  {
    EscapePlain(s);
    ReplaceAbsent(s, "\r\n", "\n");
    ReplaceAbsent(s, "\r", "\n");
  }

  /** Escaping and newline normalisation leave the colliding body as it is. */
  lemma CollisionIsPlain()
    ensures NormalizeNewlines(Escape(Collision + "\n\n")) == Collision + "\n\n"
  {
    PlainIsUnchanged(Collision + "\n\n");
  }

  /**
   * A body holding `|||DOUBLE_BREAK` just before a blank line loses its text:
   * the source moves the blank line in front of it, so the HTML part differs
   * from the intended one although the body does not contain the placeholder.
   */
  lemma PlaceholderCollides()
    ensures BreakLinesAsWritten(Collision + "\n\n") != BreakLines(Collision + "\n\n")
    ensures FormatEmailContentAsWritten(Collision + "\n\n") != FormatEmailContent(Collision + "\n\n")
  {
    var s := Collision + "\n\n";
    CollisionHeads();
    CollisionIsPlain();
    var w := BreakLinesAsWritten(s);
    var b := BreakLines(s);
    KeepSpacingHead(w);
    KeepSpacingHead(b);
    assert ContentAsWritten(s) == KeepSpacing(w) && Content(s) == KeepSpacing(b);
    assert FormatEmailContentAsWritten(s)[|Prefix|] == ContentAsWritten(s)[0];
    assert FormatEmailContent(s)[|Prefix|] == Content(s)[0];
  }

  /** Text without characters `html.escape` touches is left as it is. */
  lemma {:induction false} EscapePlain(s: string)
    requires forall k :: 0 <= k < |s| ==> s[k] !in "&<>\"'"
    ensures Escape(s) == s
    decreases |s|
  {
    if s != [] {
      EscapePlain(s[1..]);
      assert [s[0]] + s[1..] == s;
    }
  }

  /** Spacing conversion keeps a first character that is neither a space nor a tab. */
  lemma KeepSpacingHead(s: string)
    requires s != [] && s[0] != ' ' && s[0] != '\t'
    ensures KeepSpacing(s) != [] && KeepSpacing(s)[0] == s[0]
  {
    assert s == [s[0]] + s[1..];
    ReplaceCons(s[0], s[1..], "  ", TwoSpaces);
    var r := Replace(s, "  ", TwoSpaces);
    ReplaceCons(s[0], Replace(s[1..], "  ", TwoSpaces), "\t", TabSpaces);
  }

  /** No two spaces follow each other. */
  predicate NoDoubleSpace(s: string) {
    forall k :: 0 <= k < |s| - 1 ==> !(s[k] == ' ' && s[k + 1] == ' ')
  }

  /** Two stretches without double spaces join without one when the seam is not two spaces. */
  lemma NoDoubleSpaceAppend(a: string, b: string)
    requires NoDoubleSpace(a) && NoDoubleSpace(b)
    requires a == [] || b == [] || a[|a| - 1] != ' ' || b[0] != ' '
    ensures NoDoubleSpace(a + b)
  {
    var ab := a + b;
    forall k | 0 <= k < |ab| - 1 ensures !(ab[k] == ' ' && ab[k + 1] == ' ') {
      if k < |a| - 1 {
        assert ab[k] == a[k] && ab[k + 1] == a[k + 1];
      } else if k >= |a| {
        assert ab[k] == b[k - |a|] && ab[k + 1] == b[k + 1 - |a|];
      }
    }
  }

  /** The first character of a replacement result. */
  lemma ReplaceHead(s: string, pat: string, rep: string)
    requires |pat| > 0 && s != [] && rep != []
    ensures Replace(s, pat, rep) != []
    ensures Replace(s, pat, rep)[0] == if pat <= s then rep[0] else s[0]
  {
  }

  /** After the two-space step no two spaces remain next to each other. */
  lemma {:induction false} TwoSpacesLeaveNoDoubleSpace(s: string)
    ensures NoDoubleSpace(Replace(s, "  ", TwoSpaces))
    decreases |s|
  {
    if s != [] {
      if "  " <= s {
        TwoSpacesLeaveNoDoubleSpace(s[2..]);
        NoDoubleSpaceAppend(TwoSpaces, Replace(s[2..], "  ", TwoSpaces));
      } else {
        var r := Replace(s[1..], "  ", TwoSpaces);
        TwoSpacesLeaveNoDoubleSpace(s[1..]);
        if s[0] == ' ' && s[1..] != [] {
          assert s[1] != ' ';
          assert !("  " <= s[1..]);
          ReplaceHead(s[1..], "  ", TwoSpaces);
        }
        NoDoubleSpaceAppend([s[0]], r);
      }
    }
  }

  /** Replacing tabs by non-breaking spaces keeps the absence of double spaces. */
  lemma {:induction false} TabsKeepNoDoubleSpace(s: string)
    requires NoDoubleSpace(s)
    ensures NoDoubleSpace(Replace(s, "\t", TabSpaces))
    decreases |s|
  {
    if s != [] {
      assert NoDoubleSpace(s[1..]) by {
        forall k | 0 <= k < |s[1..]| - 1 ensures !(s[1..][k] == ' ' && s[1..][k + 1] == ' ') {
          assert s[1..][k] == s[k + 1] && s[1..][k + 1] == s[k + 2];
        }
      }
      TabsKeepNoDoubleSpace(s[1..]);
      var r := Replace(s[1..], "\t", TabSpaces);
      if "\t" <= s {
        NoDoubleSpaceAppend(TabSpaces, r);
      } else {
        if s[0] == ' ' && s[1..] != [] {
          assert s[1] != ' ';
          ReplaceHead(s[1..], "\t", TabSpaces);
        }
        NoDoubleSpaceAppend([s[0]], r);
      }
    }
  }

  /** Typed alignment survives: the body never shows two plain spaces in a row. */
  lemma ContentHasNoDoubleSpace(s: string)
    ensures NoDoubleSpace(Content(s)) && NoDoubleSpace(ContentAsWritten(s))
  {
    var b := BreakLines(NormalizeNewlines(Escape(s)));
    TwoSpacesLeaveNoDoubleSpace(b);
    TabsKeepNoDoubleSpace(Replace(b, "  ", TwoSpaces));
    var w := BreakLinesAsWritten(NormalizeNewlines(Escape(s)));
    TwoSpacesLeaveNoDoubleSpace(w);
    TabsKeepNoDoubleSpace(Replace(w, "  ", TwoSpaces));
  }

  /** Each tab becomes four `&nbsp;`, whatever surrounds it. */
  lemma TabBecomesFourSpaces(a: string, b: string)
    ensures Replace(a + "\t" + b, "\t", TabSpaces) ==
      Replace(a, "\t", TabSpaces) + TabSpaces + Replace(b, "\t", TabSpaces)
  {
    ReplaceCharAppend(a + "\t", b, '\t', TabSpaces);
    ReplaceCharAppend(a, "\t", '\t', TabSpaces);
    assert Replace("\t", "\t", TabSpaces) == TabSpaces + Replace("", "\t", TabSpaces);
  }
}
