/** The confirmation bridge: the HTML escaping of the displayed record and
    the page-title protocol that carries the user's button choice back. */
module WebUIAutomator {
  import opened Wrappers
  import opened JavaStrings
  import opened JavaIntegers
  import opened FifaFinalResult

  /** Characters that would be read as markup if written raw. */
  predicate IsMarkup(c: char) {
    c == '<' || c == '>' || c == '"' || c == '\''
  }

  predicate NoMarkup(s: string) {
    forall c :: c in s ==> !IsMarkup(c)
  }

  /** Characters `escapeHtml` rewrites. */
  predicate IsEscaped(c: char) {
    c == '&' || IsMarkup(c)
  }

  /** The chain of `String.replace` calls of `escapeHtml`, `&` first. Text
      holding none of the five characters it targets passes unchanged. */
  function ReplaceEntities(t: string): (r: string)
    ensures (forall c :: c in t ==> !IsEscaped(c)) ==> r == t
  {
    var amp := ReplaceChar(t, '&', "&amp;");
    var lt := ReplaceChar(amp, '<', "&lt;");
    var gt := ReplaceChar(lt, '>', "&gt;");
    var quot := ReplaceChar(gt, '"', "&quot;");
    ReplaceChar(quot, '\'', "&#39;")
  }

  /** `escapeHtml`: `null` becomes the empty string. */
  function EscapeHtml(text: Option<string>): (r: string)
    ensures text.None? ==> r == ""
    ensures NoMarkup(r)
  {
    match text
    case None => ""
    case Some(t) => ReplaceEntitiesNoMarkup(t); ReplaceEntities(t)
  }

  /** Each replacement removes its character and writes only entity text,
      none of which holds markup. */
  lemma ReplaceEntitiesNoMarkup(t: string)
    ensures NoMarkup(ReplaceEntities(t))
  {
    var amp := ReplaceChar(t, '&', "&amp;");
    var lt := ReplaceChar(amp, '<', "&lt;");
    assert '<' !in lt;
    var gt := ReplaceChar(lt, '>', "&gt;");
    assert '<' !in gt && '>' !in gt;
    var quot := ReplaceChar(gt, '"', "&quot;");
    assert '<' !in quot && '>' !in quot && '"' !in quot;
    var apos := ReplaceChar(quot, '\'', "&#39;");
    assert '<' !in apos && '>' !in apos && '"' !in apos && '\'' !in apos;
  }

  /** Reference definition: each character is escaped on its own. */
  function EscapeChar(c: char): string {
    if c == '&' then "&amp;"
    else if c == '<' then "&lt;"
    else if c == '>' then "&gt;"
    else if c == '"' then "&quot;"
    else if c == '\'' then "&#39;"
    else [c]
  }

  function EscapeEach(s: string): string {
    if s == [] then [] else EscapeChar(s[0]) + EscapeEach(s[1..])
  }

  /** Decoding of the five entities `escapeHtml` writes: each entity becomes
      the character it names, every other character is kept. Whitespace
      collapsing, other entities and tags are not part of it. */
  function DecodeEntities(s: string): string
    decreases |s|
  {
    if s == [] then []
    else if StartsWith(s, "&amp;") then "&" + DecodeEntities(s[5..])
    else if StartsWith(s, "&lt;") then "<" + DecodeEntities(s[4..])
    else if StartsWith(s, "&gt;") then ">" + DecodeEntities(s[4..])
    else if StartsWith(s, "&quot;") then "\"" + DecodeEntities(s[6..])
    else if StartsWith(s, "&#39;") then "'" + DecodeEntities(s[5..])
    else [s[0]] + DecodeEntities(s[1..])
  }

  /** The replacement chain distributes over concatenation. */
  lemma ReplaceEntitiesConcat(a: string, b: string)
    ensures ReplaceEntities(a + b) == ReplaceEntities(a) + ReplaceEntities(b)
  {
    var a1, b1 := ReplaceChar(a, '&', "&amp;"), ReplaceChar(b, '&', "&amp;");
    ReplaceCharConcat(a, b, '&', "&amp;");
    var a2, b2 := ReplaceChar(a1, '<', "&lt;"), ReplaceChar(b1, '<', "&lt;");
    ReplaceCharConcat(a1, b1, '<', "&lt;");
    var a3, b3 := ReplaceChar(a2, '>', "&gt;"), ReplaceChar(b2, '>', "&gt;");
    ReplaceCharConcat(a2, b2, '>', "&gt;");
    var a4, b4 := ReplaceChar(a3, '"', "&quot;"), ReplaceChar(b3, '"', "&quot;");
    ReplaceCharConcat(a3, b3, '"', "&quot;");
    ReplaceCharConcat(a4, b4, '\'', "&#39;");
  }

  /** The text `&` writes is never rewritten by the later replacements. */
  lemma ReplaceEntitiesAmp()
    ensures ReplaceEntities("&") == "&amp;"
  {
    assert ReplaceChar("&", '&', "&amp;") == "&amp;" + ReplaceChar("&"[1..], '&', "&amp;");
    assert "&"[1..] == [];
    ReplaceEntitiesPlainAfterAmp("&amp;");
  }

  lemma ReplaceEntitiesPlainAfterAmp(t: string)
    requires forall c :: c in t ==> !IsMarkup(c)
    ensures ReplaceChar(ReplaceChar(ReplaceChar(ReplaceChar(t, '<', "&lt;"), '>', "&gt;"), '"', "&quot;"), '\'', "&#39;") == t
  {
  }

  lemma ReplaceEntitiesLt()
    ensures ReplaceEntities("<") == "&lt;"
  {
    assert ReplaceChar("<", '&', "&amp;") == "<";
    assert ReplaceChar("<", '<', "&lt;") == "&lt;" + ReplaceChar("<"[1..], '<', "&lt;");
    assert "<"[1..] == [];
    assert '>' !in "&lt;" && '"' !in "&lt;" && '\'' !in "&lt;";
  }

  lemma ReplaceEntitiesGt()
    ensures ReplaceEntities(">") == "&gt;"
  {
    assert ReplaceChar(">", '>', "&gt;") == "&gt;" + ReplaceChar(">"[1..], '>', "&gt;");
    assert ">"[1..] == [];
  }

  lemma ReplaceEntitiesQuot()
    ensures ReplaceEntities("\"") == "&quot;"
  {
    var q := "\"";
    assert '&' !in q && '<' !in q && '>' !in q;
    assert ReplaceChar(ReplaceChar(ReplaceChar(q, '&', "&amp;"), '<', "&lt;"), '>', "&gt;") == q;
    assert q[1..] == [];
    assert ReplaceChar(q, '"', "&quot;") == "&quot;" + ReplaceChar(q[1..], '"', "&quot;");
    assert '\'' !in "&quot;";
  }

  lemma ReplaceEntitiesApos()
    ensures ReplaceEntities("'") == "&#39;"
  {
    assert ReplaceChar("'", '\'', "&#39;") == "&#39;" + ReplaceChar("'"[1..], '\'', "&#39;");
    assert "'"[1..] == [];
  }

  /** On a single character the chain produces that character's entity:
      the `&` inserted by a later replacement is never rewritten, because
      `&` is replaced first. */
  lemma ReplaceEntitiesChar(c: char)
    ensures ReplaceEntities([c]) == EscapeChar(c)
  {
    if c == '&' {
      ReplaceEntitiesAmp();
    } else if c == '<' {
      ReplaceEntitiesLt();
    } else if c == '>' {
      ReplaceEntitiesGt();
    } else if c == '"' {
      ReplaceEntitiesQuot();
    } else if c == '\'' {
      ReplaceEntitiesApos();
    }
  }

  /** `escapeHtml` agrees with the character-by-character reference. */
  lemma {:induction false} EscapeHtmlIsPerCharacter(s: string)
    ensures EscapeHtml(Some(s)) == EscapeEach(s)
  {
    if s != [] {
      assert s == [s[0]] + s[1..];
      ReplaceEntitiesConcat([s[0]], s[1..]);
      ReplaceEntitiesChar(s[0]);
      EscapeHtmlIsPerCharacter(s[1..]);
    }
  }

  /** Escaping a concatenation escapes each part on its own, so no entity
      is ever escaped twice. */
  lemma EscapeHtmlConcat(a: string, b: string)
    ensures EscapeHtml(Some(a + b)) == EscapeHtml(Some(a)) + EscapeHtml(Some(b))
  {
    ReplaceEntitiesConcat(a, b);
  }

  /** Text with none of the five special characters comes back unchanged. */
  lemma EscapeHtmlPlainText(s: string)
    requires forall c :: c in s ==> !IsEscaped(c)
    ensures EscapeHtml(Some(s)) == s
  {
  }

  /** Decoding consumes one escaped character at the front. */
  lemma DecodeEscapedChar(c: char, rest: string)
    ensures DecodeEntities(EscapeChar(c) + rest) == [c] + DecodeEntities(rest)
  {
    if c == '&' {
      DecodeAmp(rest);
    } else if c == '<' {
      DecodeLt(rest);
    } else if c == '>' {
      DecodeGt(rest);
    } else if c == '"' {
      DecodeQuot(rest);
    } else if c == '\'' {
      DecodeApos(rest);
    } else {
      DecodePlain(c, rest);
    }
  }

  lemma DecodeAmp(rest: string)
    ensures DecodeEntities("&amp;" + rest) == "&" + DecodeEntities(rest)
  {
    var e := "&amp;" + rest;
    assert e[..5] == "&amp;" && e[5..] == rest;
  }

  lemma DecodePlain(c: char, rest: string)
    requires !IsEscaped(c)
    ensures DecodeEntities([c] + rest) == [c] + DecodeEntities(rest)
  {
    var e := [c] + rest;
    assert e[0] == c && e[1..] == rest;
    assert !StartsWith(e, "&amp;") && !StartsWith(e, "&lt;") && !StartsWith(e, "&gt;");
    assert !StartsWith(e, "&quot;") && !StartsWith(e, "&#39;");
  }

  lemma DecodeLt(rest: string)
    ensures DecodeEntities("&lt;" + rest) == "<" + DecodeEntities(rest)
  {
    var e := "&lt;" + rest;
    assert e[1] == 'l';
    assert e[..4] == "&lt;" && e[4..] == rest;
  }

  lemma DecodeGt(rest: string)
    ensures DecodeEntities("&gt;" + rest) == ">" + DecodeEntities(rest)
  {
    var e := "&gt;" + rest;
    assert e[1] == 'g';
    assert e[..4] == "&gt;" && e[4..] == rest;
  }

  lemma DecodeQuot(rest: string)
    ensures DecodeEntities("&quot;" + rest) == "\"" + DecodeEntities(rest)
  {
    var e := "&quot;" + rest;
    assert e[1] == 'q';
    assert e[..6] == "&quot;" && e[6..] == rest;
  }

  lemma DecodeApos(rest: string)
    ensures DecodeEntities("&#39;" + rest) == "'" + DecodeEntities(rest)
  {
    var e := "&#39;" + rest;
    assert e[1] == '#';
    assert e[..5] == "&#39;" && e[5..] == rest;
  }

  /** Decoding the escaped text yields the original text. */
  lemma {:induction false} DecodeEscapeEach(s: string)
    ensures DecodeEntities(EscapeEach(s)) == s
  {
    if s != [] {
      DecodeEscapeEach(s[1..]);
      DecodeEscapedChar(s[0], EscapeEach(s[1..]));
      assert s == [s[0]] + s[1..];
    }
  }

  /** Decoding the five entities in the escaped text gives back the text
      that was escaped. */
  lemma DecodeEscapeHtml(s: string)
    ensures DecodeEntities(EscapeHtml(Some(s))) == s
  {
    EscapeHtmlIsPerCharacter(s);
    DecodeEscapeEach(s);
  }

  /** Each text escaped on its own, in order. */
  function EscapeAll(texts: seq<string>): (r: seq<string>)
    ensures |r| == |texts|
    ensures forall k :: 0 <= k < |texts| ==> r[k] == EscapeHtml(Some(texts[k])) && NoMarkup(r[k])
  {
    if texts == [] then [] else [EscapeHtml(Some(texts[0]))] + EscapeAll(texts[1..])
  }

  /** The four field texts substituted into the confirmation page. */
  function DisplayedFields(data: FinalResult): (fields: seq<string>)
    ensures |fields| == 4
    ensures forall k :: 0 <= k < |fields| ==> NoMarkup(fields[k])
  {
    EscapeAll([Decimal(data.year), data.winner, data.score, data.runnerUp])
  }

  /** The year field is the year in decimal, unchanged, and decoding the
      five entities in each text field gives back the extracted text. */
  lemma DisplayedFieldsShowRecord(data: FinalResult)
    ensures DisplayedFields(data)[0] == Decimal(data.year)
    ensures DecodeEntities(DisplayedFields(data)[1]) == data.winner
    ensures DecodeEntities(DisplayedFields(data)[2]) == data.score
    ensures DecodeEntities(DisplayedFields(data)[3]) == data.runnerUp
  {
    var d := Decimal(data.year);
    forall c | c in d ensures !IsEscaped(c) {
      var k :| 0 <= k < |d| && d[k] == c;
      if data.year < 0 && k > 0 { assert d[k] == d[1..][k - 1]; }
    }
    EscapeHtmlPlainText(d);
    DecodeEscapeHtml(data.winner);
    DecodeEscapeHtml(data.score);
    DecodeEscapeHtml(data.runnerUp);
  }

  /** The page-title prefix that signals a choice. */
  const ChoicePrefix: string := "CHOICE_"

  /** The page's three buttons. */
  datatype Button = AppendButton | SkipButton | QuitButton

  /** The argument each button passes to the page script. */
  function ButtonChoice(b: Button): string {
    match b
    case AppendButton => "append"
    case SkipButton => "skip"
    case QuitButton => "quit"
  }

  /** The page script sets the title to the prefix followed by the choice. */
  function SentinelTitle(choice: string): (title: string)
    ensures StartsWith(title, ChoicePrefix)
    ensures |title| == |ChoicePrefix| + |choice|
    ensures title[|ChoicePrefix|..] == choice
  {
    ChoicePrefix + choice
  }

  /** Reading a choice back from a title: the prefix is removed and the
      rest lower-cased; a title without the prefix carries no choice. */
  function DecodeTitle(title: string): (r: Option<string>)
    ensures r.Some? <==> StartsWith(title, ChoicePrefix)
    ensures r.Some? ==> |r.value| == |title| - |ChoicePrefix|
    ensures r.Some? ==> forall k :: 0 <= k < |r.value| ==>
      r.value[k] == LowerChar(title[|ChoicePrefix| + k])
  {
    if StartsWith(title, ChoicePrefix) then Some(ToLower(title[|ChoicePrefix|..])) else None
  }

  /** Decoding an encoded choice gives its lower-case form. */
  lemma DecodeSentinel(choice: string)
    ensures DecodeTitle(SentinelTitle(choice)) == Some(ToLower(choice))
  {
    assert SentinelTitle(choice)[|ChoicePrefix|..] == choice;
  }

  /** Each button's title decodes to that button's choice. */
  lemma ButtonSentinelRoundTrip(b: Button)
    ensures DecodeTitle(SentinelTitle(ButtonChoice(b))) == Some(ButtonChoice(b))
  {
    DecodeSentinel(ButtonChoice(b));
    match b
    case AppendButton => ToLowerOfLower("append");
    case SkipButton => ToLowerOfLower("skip");
    case QuitButton => ToLowerOfLower("quit");
  }

  /** What the up-to-300-second wait on the title ended with: the title
      re-read once the wait saw a title with the prefix, or a timeout. */
  datatype WaitResult = TitleAfterWait(title: string) | WaitTimedOut

  /** Everything `getUserChoiceFromWebPage` can observe of the browser and
      the file system. */
  datatype Bridge =
    | NoDriver                   // the driver reference is null
    | PageFileFailed             // creating or writing the temporary page failed
    | PageShown(wait: WaitResult)

  /** `getUserChoiceFromWebPage`. */
  function GetUserChoice(b: Bridge): (choice: string)
    ensures b.NoDriver? || b.PageFileFailed? || b == PageShown(WaitTimedOut) ==> choice == "skip"
    ensures choice == "timeout" ==> b.PageShown? && b.wait.TitleAfterWait?
  {
    match b
    case NoDriver => "skip"
    case PageFileFailed => "skip"
    case PageShown(WaitTimedOut) => "skip"
    case PageShown(TitleAfterWait(title)) => DecodeTitle(title).ValueOr("timeout")
  }

  /** A title that carries the prefix yields a lower-case choice whose own
      sentinel title equals the re-read title up to letter case. */
  lemma ChoiceMatchesTitle(title: string)
    requires StartsWith(title, ChoicePrefix)
    ensures var choice := GetUserChoice(PageShown(TitleAfterWait(title)));
      ToLower(choice) == choice && ToLower(SentinelTitle(choice)) == ToLower(title)
  {
    var rest := title[|ChoicePrefix|..];
    var choice := ToLower(rest);
    ToLowerIdempotent(rest);
    assert title == ChoicePrefix + rest;
    ToLowerConcat(ChoicePrefix, choice);
    ToLowerConcat(ChoicePrefix, rest);
  }

  /** A button click comes back as that button's choice. */
  lemma ButtonClickChoice(btn: Button)
    ensures GetUserChoice(PageShown(TitleAfterWait(SentinelTitle(ButtonChoice(btn))))) == ButtonChoice(btn)
  {
    ButtonSentinelRoundTrip(btn);
  }

  /** `"timeout"` is returned only when the page was shown and the title
      re-read after the wait either lost the prefix or itself spells the
      choice `timeout`; it never comes from a timed-out wait. */
  lemma TimeoutChoiceOrigin(b: Bridge)
    ensures GetUserChoice(b) == "timeout" <==>
      b.PageShown? && b.wait.TitleAfterWait? &&
      (!StartsWith(b.wait.title, ChoicePrefix) ||
       ToLower(b.wait.title[|ChoicePrefix|..]) == "timeout")
  {
  }
}
