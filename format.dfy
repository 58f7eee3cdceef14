/**
 * The string helpers: truncation with an ellipsis, HTML escaping, sanitising
 * (which is escaping) and capitalising the first character. Strings are
 * sequences of characters; a JavaScript length counts UTF-16 code units,
 * which coincide with characters for text outside the astral planes.
 */
module Format {

  // ---------------------------------------------------------------------
  // truncateString

  /** The ellipsis `truncateString` appends when the caller gives none. */
  const DefaultEllipsis: string := "..."

  /** The end index `substring(0, n)` uses for a cut shorter than the text: a negative `n` counts as 0. */
  function CutLength(maxLength: int): nat
  {
    if maxLength < 0 then 0 else maxLength
  }

  /**
   * `truncateString(text, maxLength, ellipsis)`: the text itself when it is
   * not longer than `maxLength`; otherwise its first `maxLength` characters
   * (none for a negative `maxLength`) followed by the ellipsis.
   */
  function TruncateString(text: string, maxLength: int, ellipsis: string): (r: string)
    ensures |text| <= maxLength ==> r == text
    ensures |text| > maxLength ==>
              && |r| == CutLength(maxLength) + |ellipsis|
              && r[..CutLength(maxLength)] == text[..CutLength(maxLength)]
              && r[CutLength(maxLength)..] == ellipsis
  {
    if |text| <= maxLength then text
    else text[..CutLength(maxLength)] + ellipsis
  }

  /** `truncateString(text, maxLength)` with the default ellipsis. */
  function Truncate(text: string, maxLength: int): (r: string)
    ensures |text| <= maxLength ==> r == text
    ensures |text| > maxLength ==> r == text[..CutLength(maxLength)] + DefaultEllipsis
  {
    TruncateString(text, maxLength, DefaultEllipsis)
  }

  // ---------------------------------------------------------------------
  // escapeHTML, sanitizeText

  /** `s.replace(/c/g, rep)`: every occurrence of the character `c` replaced by `rep`. */
  function ReplaceAll(s: string, c: char, rep: string): (r: string)
    ensures c !in rep ==> c !in r
    ensures c !in s ==> r == s
    ensures |rep| >= 1 ==> |r| >= |s|
  {
    if s == [] then []
    else (if s[0] == c then rep else [s[0]]) + ReplaceAll(s[1..], c, rep)
  }

  /** A global replace works piece by piece: replacing in a concatenation concatenates the replacements. */
  lemma {:induction false} ReplaceAllAppend(a: string, b: string, c: char, rep: string)
    ensures ReplaceAll(a + b, c, rep) == ReplaceAll(a, c, rep) + ReplaceAll(b, c, rep)
  {
    if a == [] {
      assert a + b == b;
    } else {
      assert (a + b)[0] == a[0] && (a + b)[1..] == a[1..] + b;
      ReplaceAllAppend(a[1..], b, c, rep);
    }
  }

  /**
   * `escapeHTML(str)`: the five global replaces in the source's order,
   * ampersands first, then `>`, `<`, double and single quotes.
   */
  function EscapeHTML(s: string): string
  {
    var amp := ReplaceAll(s, '&', "&amp;");
    var gt := ReplaceAll(amp, '>', "&gt;");
    var lt := ReplaceAll(gt, '<', "&lt;");
    var quot := ReplaceAll(lt, '"', "&quot;");
    ReplaceAll(quot, '\'', "&#039;")
  }

  /** The five characters `escapeHTML` rewrites. */
  predicate IsSpecial(ch: char)
  {
    ch == '&' || ch == '<' || ch == '>' || ch == '"' || ch == '\''
  }

  /** The four characters that can open or close markup or an attribute value: `escapeHTML` leaves none. */
  predicate IsMarkup(ch: char)
  {
    ch == '<' || ch == '>' || ch == '"' || ch == '\''
  }

  /** The entity of one character: the five special ones are rewritten, any other stays as it is. */
  function EscapeChar(ch: char): (r: string)
    ensures !IsSpecial(ch) <==> r == [ch]
    ensures |r| >= 1 && (IsSpecial(ch) <==> r[0] == '&')
    ensures forall i :: 0 <= i < |r| ==> !IsMarkup(r[i])
  {
    match ch
    case '&' => "&amp;"
    case '>' => "&gt;"
    case '<' => "&lt;"
    case '"' => "&quot;"
    case '\'' => "&#039;"
    case _ => [ch]
  }

  /** Escaping character by character, each character on its own. */
  function EscapeEach(s: string): (r: string)
    ensures |r| >= |s|
    ensures forall i :: 0 <= i < |r| ==> !IsMarkup(r[i])
    ensures (forall i :: 0 <= i < |s| ==> !IsSpecial(s[i])) ==> r == s
  {
    if s == [] then [] else EscapeChar(s[0]) + EscapeEach(s[1..])
  }

  /** A global replace on a one-character string. */
  lemma ReplaceOne(ch: char, c: char, rep: string)
    ensures ReplaceAll([ch], c, rep) == if ch == c then rep else [ch]
  {
    assert [ch][1..] == [];
  }

  /**
   * `escapeHTML` on one character, following it through the five replaces:
   * the entity of a special character holds none of the characters the
   * later replaces look for.
   */
  lemma EscapeOneChar(ch: char)
    ensures EscapeHTML([ch]) == EscapeChar(ch)
  {
    var amp := ReplaceAll([ch], '&', "&amp;");
    var gt := ReplaceAll(amp, '>', "&gt;");
    var lt := ReplaceAll(gt, '<', "&lt;");
    var quot := ReplaceAll(lt, '"', "&quot;");
    AmpEntityStable();
    LaterEntitiesStable();
    ReplaceOne(ch, '&', "&amp;");
    if ch != '&' {
      ReplaceOne(ch, '>', "&gt;");
      if ch != '>' {
        ReplaceOne(ch, '<', "&lt;");
        if ch != '<' {
          ReplaceOne(ch, '"', "&quot;");
          if ch != '"' {
            ReplaceOne(ch, '\'', "&#039;");
          }
        }
      }
    }
  }

  /** The entity of `&` passes unchanged through the four replaces after the one producing it. */
  lemma AmpEntityStable()
    ensures ReplaceAll("&amp;", '>', "&gt;") == "&amp;"
    ensures ReplaceAll("&amp;", '<', "&lt;") == "&amp;"
    ensures ReplaceAll("&amp;", '"', "&quot;") == "&amp;"
    ensures ReplaceAll("&amp;", '\'', "&#039;") == "&amp;"
  {
    assert '>' !in "&amp;" && '<' !in "&amp;" && '"' !in "&amp;" && '\'' !in "&amp;";
  }

  /** The entities of `>`, `<` and `"` pass unchanged through the replaces after the one producing each. */
  lemma LaterEntitiesStable()
    ensures ReplaceAll("&gt;", '<', "&lt;") == "&gt;"
    ensures ReplaceAll("&gt;", '"', "&quot;") == "&gt;"
    ensures ReplaceAll("&gt;", '\'', "&#039;") == "&gt;"
    ensures ReplaceAll("&lt;", '"', "&quot;") == "&lt;"
    ensures ReplaceAll("&lt;", '\'', "&#039;") == "&lt;"
    ensures ReplaceAll("&quot;", '\'', "&#039;") == "&quot;"
  {
    assert '<' !in "&gt;" && '"' !in "&gt;" && '\'' !in "&gt;";
    assert '"' !in "&lt;" && '\'' !in "&lt;";
    assert '\'' !in "&quot;";
  }

  /** `escapeHTML` distributes over concatenation, since each of its replaces does. */
  lemma EscapeAppend(a: string, b: string)
    ensures EscapeHTML(a + b) == EscapeHTML(a) + EscapeHTML(b)
  {
    var a1, b1 := ReplaceAll(a, '&', "&amp;"), ReplaceAll(b, '&', "&amp;");
    ReplaceAllAppend(a, b, '&', "&amp;");
    var a2, b2 := ReplaceAll(a1, '>', "&gt;"), ReplaceAll(b1, '>', "&gt;");
    ReplaceAllAppend(a1, b1, '>', "&gt;");
    var a3, b3 := ReplaceAll(a2, '<', "&lt;"), ReplaceAll(b2, '<', "&lt;");
    ReplaceAllAppend(a2, b2, '<', "&lt;");
    var a4, b4 := ReplaceAll(a3, '"', "&quot;"), ReplaceAll(b3, '"', "&quot;");
    ReplaceAllAppend(a3, b3, '"', "&quot;");
    ReplaceAllAppend(a4, b4, '\'', "&#039;");
  }

  /**
   * Because ampersands are replaced first, the five sequential replaces of
   * `escapeHTML` are the per-character rewrite: no entity it produces is
   * escaped a second time.
   */
  lemma {:induction false} EscapeHTMLPerCharacter(s: string)
    ensures EscapeHTML(s) == EscapeEach(s)
  {
    if s != [] {
      assert s == [s[0]] + s[1..];
      EscapeAppend([s[0]], s[1..]);
      EscapeOneChar(s[0]);
      EscapeHTMLPerCharacter(s[1..]);
    }
  }

  /**
   * The output of `escapeHTML` holds no `<`, `>`, `"` or `'`; a text without
   * any of the five special characters comes back unchanged; and the output
   * is never shorter than the input.
   */
  lemma EscapeHTMLSafe(s: string)
    ensures forall i :: 0 <= i < |EscapeHTML(s)| ==> !IsMarkup(EscapeHTML(s)[i])
    ensures (forall i :: 0 <= i < |s| ==> !IsSpecial(s[i])) ==> EscapeHTML(s) == s
    ensures |EscapeHTML(s)| >= |s|
  {
    EscapeHTMLPerCharacter(s);
  }

  /** Reading the five entities back, and any other character as itself. */
  function Unescape(s: string): (r: string)
    ensures |r| <= |s|
  {
    if s == [] then []
    else if |s| >= 5 && s[..5] == "&amp;" then "&" + Unescape(s[5..])
    else if |s| >= 4 && s[..4] == "&gt;" then ">" + Unescape(s[4..])
    else if |s| >= 4 && s[..4] == "&lt;" then "<" + Unescape(s[4..])
    else if |s| >= 6 && s[..6] == "&quot;" then "\"" + Unescape(s[6..])
    else if |s| >= 6 && s[..6] == "&#039;" then "'" + Unescape(s[6..])
    else [s[0]] + Unescape(s[1..])
  }

  /** Unescaping the entity of one character in front of any text gives that character back first. */
  lemma UnescapeEntity(ch: char, rest: string)
    ensures Unescape(EscapeChar(ch) + rest) == [ch] + Unescape(rest)
  {
    var e := EscapeChar(ch);
    var s := e + rest;
    assert s[..|e|] == e && s[|e|..] == rest;
    if !IsSpecial(ch) {
      assert s[0] == ch;
      assert |s| >= 4 ==> s[..4][0] == ch;
      assert |s| >= 5 ==> s[..5][0] == ch;
      assert |s| >= 6 ==> s[..6][0] == ch;
    } else if ch == '&' {
      assert s[..5] == "&amp;";
    } else if ch == '>' {
      assert s[..4] == "&gt;";
      assert |s| >= 5 ==> s[..5][1] == 'g';
    } else if ch == '<' {
      assert s[..4] == "&lt;" && s[..4][1] == 'l';
      assert |s| >= 5 ==> s[..5][1] == 'l';
    } else if ch == '"' {
      assert s[..6] == "&quot;" && s[..4][1] == 'q' && s[..5][1] == 'q';
    } else {
      assert s[..6] == "&#039;" && s[..4][1] == '#' && s[..5][1] == '#' && s[..6][1] == '#';
    }
  }

  /** `escapeHTML` loses nothing: reading the entities back gives the original text. */
  lemma {:induction false} UnescapeEscapeHTML(s: string)
    ensures Unescape(EscapeHTML(s)) == s
  {
    EscapeHTMLPerCharacter(s);
    UnescapeEscapeEach(s);
  }

  lemma {:induction false} UnescapeEscapeEach(s: string)
    ensures Unescape(EscapeEach(s)) == s
  {
    if s != [] {
      UnescapeEntity(s[0], EscapeEach(s[1..]));
      UnescapeEscapeEach(s[1..]);
    }
  }

  /** `sanitizeText(text)`: the empty string for empty text, the escaped text otherwise; so it is `escapeHTML` on every string. */
  function SanitizeText(text: string): (r: string)
    ensures r == EscapeHTML(text)
  {
    if text == [] then [] else EscapeHTML(text)
  }

  // ---------------------------------------------------------------------
  // capitalizeFirstLetter

  /**
   * `capitalizeFirstLetter(str)`: the empty string unchanged; otherwise the
   * first character upper-cased and the rest verbatim. `upper` stands for
   * `toUpperCase` on one character, taken to give one character back.
   */
  function CapitalizeFirstLetter(s: string, upper: char -> char): (r: string)
    ensures |r| == |s|
    ensures s != [] ==> r[0] == upper(s[0])
    ensures forall i :: 0 < i < |s| ==> r[i] == s[i]
  {
    if s == [] then s else [upper(s[0])] + s[1..]
  }

  /** With an upper-casing that is idempotent, capitalising twice is capitalising once. */
  lemma CapitalizeIdempotent(s: string, upper: char -> char)
    requires forall ch :: upper(upper(ch)) == upper(ch)
    ensures CapitalizeFirstLetter(CapitalizeFirstLetter(s, upper), upper) == CapitalizeFirstLetter(s, upper)
  {
    var once := CapitalizeFirstLetter(s, upper);
    var twice := CapitalizeFirstLetter(once, upper);
    assert |twice| == |once|;
    assert forall i :: 0 <= i < |once| ==> twice[i] == once[i];
  }
}
