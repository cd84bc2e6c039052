/**
 Slugs: the importer makes them from names, the back office accepts only clean ones. Both
 first trim and lower-case the text; what those two do to letters outside the slug alphabet
 does not matter here, only that they leave slug text alone.
 */
module Slugs {
  import opened Outcomes

  predicate Word(c: char) {
    'a' <= c <= 'z' || '0' <= c <= '9'
  }

  predicate SlugText(s: string) {
    forall c :: c in s ==> Word(c) || c == '-'
  }

  /** Trimming and lower-casing, of which only this is used. */
  ghost predicate LeavesSlugText(normalize: string -> string) {
    forall s {:trigger normalize(s)} :: SlugText(s) ==> normalize(s) == s
  }

  // ---------------------------------------------------------------- the importer

  /** Every maximal run of other characters becomes one hyphen. */
  function Collapse(s: string): string {
    if s == [] then []
    else
      var rest, c := s[..|s| - 1], s[|s| - 1];
      if Word(c) then Collapse(rest) + [c]
      else if rest != [] && !Word(rest[|rest| - 1]) then Collapse(rest)
      else Collapse(rest) + ['-']
  }

  function StripLeft(s: string): string {
    if s != [] && s[0] == '-' then StripLeft(s[1..]) else s
  }

  function StripRight(s: string): string {
    if s != [] && s[|s| - 1] == '-' then StripRight(s[..|s| - 1]) else s
  }

  function Hyphenated(text: string): string {
    StripRight(StripLeft(Collapse(text)))
  }

  function Slugify(normalize: string -> string, value: string, fallback: string): string {
    var s := Hyphenated(normalize(value));
    if |s| >= 2 then s else fallback
  }

  // ---------------------------------------------------------------- the back office

  /** Words joined by single hyphens. */
  function Join(words: seq<string>): string
    requires words != []
  {
    if |words| == 1 then words[0] else Join(words[..|words| - 1]) + ['-'] + words[|words| - 1]
  }

  ghost predicate IsWord(w: string) {
    w != [] && forall c :: c in w ==> Word(c)
  }

  ghost predicate AreWords(words: seq<string>) {
    words != [] && forall i :: 0 <= i < |words| ==> IsWord(words[i])
  }

  /** The grammar: one or more words joined by single hyphens. */
  ghost predicate InGrammar(s: string) {
    exists words :: AreWords(words) && Join(words) == s
  }

  datatype SlugError = TooShort | NotClean

  ghost function ValidateSlug(normalize: string -> string, value: string): Result<string, SlugError> {
    var slug := normalize(value);
    if |slug| < 2 then Err(TooShort)
    else if !InGrammar(slug) then Err(NotClean)
    else Ok(slug)
  }

  // ---------------------------------------------------------------- the grammar character by character

  /** Never two hyphens in a row, never one in front. */
  predicate NoLooseHyphens(s: string) {
    && SlugText(s)
    && (s != [] ==> s[0] != '-')
    && forall i :: 0 < i < |s| ==> s[i - 1] != '-' || s[i] != '-'
  }

  predicate Clean(s: string) {
    s != [] && NoLooseHyphens(s) && s[|s| - 1] != '-'
  }

  lemma {:induction false} JoinedWordsAreClean(words: seq<string>)
    requires AreWords(words)
    ensures Clean(Join(words))
  {
    var last := words[|words| - 1];
    assert IsWord(last);
    WordIsClean(last);
    if |words| > 1 {
      var front := words[..|words| - 1];
      assert forall i :: 0 <= i < |front| ==> front[i] == words[i];
      JoinedWordsAreClean(front);
      AppendWord(Join(front), last);
    }
  }

  lemma WordIsClean(w: string)
    requires IsWord(w)
    ensures Clean(w)
  {
    forall i | 0 <= i < |w| ensures w[i] != '-' {
      assert w[i] in w;
    }
  }

  lemma AppendWord(front: string, w: string)
    requires Clean(front) && IsWord(w)
    ensures Clean(front + ['-'] + w)
  {
    var s := front + ['-'] + w;
    forall i | 0 < i < |s| ensures s[i - 1] != '-' || s[i] != '-' {
      assert i > |front| ==> s[i] == w[i - |front| - 1] && s[i] in w;
    }
    assert s[|s| - 1] == w[|w| - 1] && w[|w| - 1] in w;
  }

  /** The words of a clean slug, and for a text that ends in a hyphen the words before it. */
  lemma {:induction false} CleanTextParses(s: string)
    requires s != [] && NoLooseHyphens(s)
    ensures if s[|s| - 1] == '-' then InGrammar(s[..|s| - 1]) else InGrammar(s)
  {
    var rest, c := s[..|s| - 1], s[|s| - 1];
    if rest == [] {
      assert AreWords([s]) && Join([s]) == s;
    } else {
      assert forall x :: x in rest ==> x in s;
      assert forall i :: 0 <= i < |rest| ==> rest[i] == s[i];
      CleanTextParses(rest);
      if c != '-' {
        assert c in s;
        if rest[|rest| - 1] == '-' {
          var words :| AreWords(words) && Join(words) == rest[..|rest| - 1];
          var all := words + [[c]];
          assert all[..|words|] == words;
          assert Join(all) == s;
          assert AreWords(all);
        } else {
          var words :| AreWords(words) && Join(words) == rest;
          LongerLastWord(words, c);
          assert rest + [c] == s;
        }
      }
    }
  }

  lemma JoinLast(front: seq<string>, w: string)
    ensures Join(front + [w]) == if front == [] then w else Join(front) + ['-'] + w
  {
    assert (front + [w])[..|front|] == front;
  }

  lemma LongerLastWord(words: seq<string>, c: char)
    requires AreWords(words) && Word(c)
    ensures InGrammar(Join(words) + [c])
  {
    var n := |words| - 1;
    var front, last := words[..n], words[n];
    var all := front + [last + [c]];
    assert words == front + [last];
    JoinLast(front, last);
    JoinLast(front, last + [c]);
    assert Join(all) == Join(words) + [c];
    assert IsWord(last) && IsWord(last + [c]);
    forall i | 0 <= i < |all| ensures IsWord(all[i]) {
      assert i < n ==> all[i] == words[i];
    }
    assert AreWords(all);
  }

  /** The slug grammar, said character by character. */
  lemma GrammarIsClean(s: string)
    ensures InGrammar(s) <==> Clean(s)
  {
    if InGrammar(s) {
      var words :| AreWords(words) && Join(words) == s;
      JoinedWordsAreClean(words);
    }
    if Clean(s) {
      CleanTextParses(s);
    }
  }

  // ---------------------------------------------------------------- what the importer makes

  ghost predicate NoDoubleHyphens(s: string) {
    SlugText(s) && forall i :: 0 < i < |s| ==> s[i - 1] != '-' || s[i] != '-'
  }

  lemma {:induction false} CollapsedHasNoDoubles(s: string)
    ensures NoDoubleHyphens(Collapse(s))
    ensures s == [] <==> Collapse(s) == []
    ensures s != [] ==> Collapse(s)[|Collapse(s)| - 1] == if Word(s[|s| - 1]) then s[|s| - 1] else '-'
  {
    if s != [] {
      CollapsedHasNoDoubles(s[..|s| - 1]);
    }
  }

  lemma {:induction false} StrippedLeft(s: string)
    requires NoDoubleHyphens(s)
    ensures NoLooseHyphens(StripLeft(s))
  {
    if s != [] && s[0] == '-' {
      StrippedLeft(s[1..]);
    }
  }

  lemma {:induction false} StrippedRight(s: string)
    requires NoLooseHyphens(s)
    ensures StripRight(s) == [] || Clean(StripRight(s))
  {
    if s != [] && s[|s| - 1] == '-' {
      StrippedRight(s[..|s| - 1]);
    }
  }

  lemma HyphenatedIsClean(text: string)
    ensures Hyphenated(text) == [] || Clean(Hyphenated(text))
  {
    CollapsedHasNoDoubles(text);
    StrippedLeft(Collapse(text));
    StrippedRight(StripLeft(Collapse(text)));
  }

  lemma {:induction false} CollapseLeavesSlugs(s: string)
    requires NoLooseHyphens(s)
    ensures Collapse(s) == s
  {
    if s != [] {
      var rest := s[..|s| - 1];
      assert forall x :: x in rest ==> x in s;
      CollapseLeavesSlugs(rest);
      assert s[|s| - 1] in s;
      if rest != [] && s[|s| - 1] == '-' {
        assert rest[|rest| - 1] == s[|s| - 2] && rest[|rest| - 1] in s;
      }
      assert s == rest + [s[|s| - 1]];
    }
  }

  /** Making a slug of a clean slug changes nothing. */
  lemma CleanIsFixed(s: string)
    requires Clean(s)
    ensures Hyphenated(s) == s
  {
    CollapseLeavesSlugs(s);
  }

  /**
   Whatever the importer makes without falling back is accepted unchanged, and making a slug of it
   again changes nothing.
   */
  lemma MadeSlugsAreAccepted(normalize: string -> string, value: string, fallback: string, other: string)
    requires LeavesSlugText(normalize) && |Hyphenated(normalize(value))| >= 2
    ensures var slug := Slugify(normalize, value, fallback);
            && ValidateSlug(normalize, slug) == Ok(slug)
            && Slugify(normalize, slug, other) == slug
  {
    var slug := Slugify(normalize, value, fallback);
    HyphenatedIsClean(normalize(value));
    GrammarIsClean(slug);
    CleanIsFixed(slug);
  }

  /** Exactly the texts the back office accepts unchanged are those the importer leaves alone, whatever its fallback. */
  lemma AcceptedIffFixed(normalize: string -> string, s: string)
    requires LeavesSlugText(normalize) && SlugText(s)
    ensures ValidateSlug(normalize, s) == Ok(s) <==> |s| >= 2 && forall fallback :: Slugify(normalize, s, fallback) == s
  {
    GrammarIsClean(s);
    if Clean(s) {
      CleanIsFixed(s);
    }
    if |s| >= 2 && forall fallback :: Slugify(normalize, s, fallback) == s {
      assert Slugify(normalize, s, []) == s;
      HyphenatedIsClean(s);
    }
  }

  /** The letters and digits of a text, in order. */
  function Letters(s: string): string {
    if s == [] then []
    else
      var rest, c := s[..|s| - 1], s[|s| - 1];
      Letters(rest) + if Word(c) then [c] else []
  }

  lemma {:induction false} CollapseKeepsLetters(s: string)
    ensures Letters(Collapse(s)) == Letters(s)
  {
    if s != [] {
      var rest, c := s[..|s| - 1], s[|s| - 1];
      CollapseKeepsLetters(rest);
      assert (Collapse(rest) + [c])[..|Collapse(rest)|] == Collapse(rest);
      assert (Collapse(rest) + ['-'])[..|Collapse(rest)|] == Collapse(rest);
    }
  }

  lemma {:induction false} StripLeftKeepsLetters(s: string)
    ensures Letters(StripLeft(s)) == Letters(s)
  {
    if s != [] && s[0] == '-' {
      StripLeftKeepsLetters(s[1..]);
      HyphenInFront(s[1..]);
      assert ['-'] + s[1..] == s;
    }
  }

  lemma {:induction false} HyphenInFront(s: string)
    ensures Letters(['-'] + s) == Letters(s)
  {
    if s == [] {
      assert ['-'] + s == ['-'] && ['-'][..0] == [];
    } else {
      HyphenInFront(s[..|s| - 1]);
      assert (['-'] + s)[..|s|] == ['-'] + s[..|s| - 1];
    }
  }

  lemma {:induction false} StripRightKeepsLetters(s: string)
    ensures Letters(StripRight(s)) == Letters(s)
  {
    if s != [] && s[|s| - 1] == '-' {
      StripRightKeepsLetters(s[..|s| - 1]);
    }
  }

  /** No letter or digit is lost, added or moved. */
  lemma HyphenatedKeepsLetters(text: string)
    ensures Letters(Hyphenated(text)) == Letters(text)
  {
    CollapseKeepsLetters(text);
    StripLeftKeepsLetters(Collapse(text));
    StripRightKeepsLetters(StripLeft(Collapse(text)));
  }

  // ---------------------------------------------------------------- the words of a text

  /** The maximal runs of small Latin letters and digits, in order. */
  function Runs(text: string): seq<string> {
    if text == [] then []
    else
      var rest, c := text[..|text| - 1], text[|text| - 1];
      var before := Runs(rest);
      if !Plain(c) then before
      else if rest != [] && Plain(rest[|rest| - 1]) && before != []
      then before[..|before| - 1] + [before[|before| - 1] + [c]]
      else before + [[c]]
  }

  predicate Plain(c: char) {
    'a' <= c <= 'z' || '0' <= c <= '9'
  }

  function Edge(outside: bool): string {
    if outside then "-" else []
  }

  lemma LastGrows(words: seq<string>, c: char)
    requires AreWords(words) && Plain(c)
    ensures var n := |words| - 1; var longer := words[..n] + [words[n] + [c]];
            AreWords(longer) && Join(longer) == Join(words) + [c]
  {
    var n := |words| - 1;
    var front, last := words[..n], words[n];
    assert words == front + [last];
    JoinLast(front, last);
    JoinLast(front, last + [c]);
    assert IsWord(last) && IsWord(last + [c]);
    forall i | 0 <= i < n ensures IsWord(front[i]) {
      assert IsWord(words[i]);
    }
  }

  lemma OneMoreWord(words: seq<string>, c: char)
    requires (words != [] ==> AreWords(words)) && Plain(c)
    ensures AreWords(words + [[c]])
    ensures Join(words + [[c]]) == if words == [] then [c] else Join(words) + "-" + [c]
  {
    JoinLast(words, [c]);
    assert IsWord([c]);
  }

  /** The text, which is not empty, collapses to these words and a hyphen at each end that is outside them. */
  ghost predicate CollapsesTo(text: string, words: seq<string>)
    requires text != []
  {
    if words == [] then
      Collapse(text) == "-" && !Plain(text[0]) && !Plain(text[|text| - 1])
    else
      && AreWords(words)
      && Collapse(text) == Edge(!Plain(text[0])) + Join(words) + Edge(!Plain(text[|text| - 1]))
  }

  lemma CollapsedGrows(rest: string, words: seq<string>, c: char)
    requires rest != [] && CollapsesTo(rest, words)
    ensures var text, inWord := rest + [c], Plain(rest[|rest| - 1]);
            && text[..|rest|] == rest && (inWord ==> words != [])
            && (!Plain(c) ==> CollapsesTo(text, words))
            && (Plain(c) && !inWord ==> CollapsesTo(text, words + [[c]]))
            && (Plain(c) && inWord ==> CollapsesTo(text, words[..|words| - 1] + [words[|words| - 1] + [c]]))
  {
    var text, inWord := rest + [c], Plain(rest[|rest| - 1]);
    assert text[..|rest|] == rest;
    assert Collapse(text) ==
           Collapse(rest) + if Plain(c) then [c] else if inWord then "-" else [];
    if Plain(c) && inWord {
      LastGrows(words, c);
    } else if Plain(c) {
      OneMoreWord(words, c);
    }
  }

  lemma {:induction false} CollapsedIsJoined(text: string)
    requires text != []
    ensures CollapsesTo(text, Runs(text))
  {
    var rest, c := text[..|text| - 1], text[|text| - 1];
    if rest == [] {
      assert text == [c] && Collapse([]) == [] && Runs([]) == [];
      assert Collapse(text) == if Plain(c) then [c] else "-";
      if Plain(c) {
        OneMoreWord([], c);
        assert [] + [[c]] == Runs(text);
      }
    } else {
      assert text == rest + [c];
      CollapsedIsJoined(rest);
      CollapsedGrows(rest, Runs(rest), c);
    }
  }

  lemma {:induction false} EdgesStripped(s: string, front: bool, back: bool)
    requires Clean(s)
    ensures StripRight(StripLeft(Edge(front) + s + Edge(back))) == s
  {
    var tail := s + Edge(back);
    assert tail[0] != '-' && StripLeft(tail) == tail;
    if front {
      assert ("-" + tail)[1..] == tail;
    }
    assert Edge(front) + s + Edge(back) == Edge(front) + tail;
    assert StripLeft(Edge(front) + tail) == tail;
    assert StripRight(s) == s;
    if back {
      assert tail[..|tail| - 1] == s;
    } else {
      assert tail == s;
    }
  }

  /** The importer's slug of any text is its words joined by single hyphens. */
  lemma HyphenatedJoinsTheWords(text: string)
    ensures Hyphenated(text) == if Runs(text) == [] then [] else Join(Runs(text))
  {
    if text != [] {
      CollapsedIsJoined(text);
      if Runs(text) == [] {
        assert StripLeft("-") == StripLeft("-"[1..]) == [];
      } else {
        JoinedWordsAreClean(Runs(text));
        EdgesStripped(Join(Runs(text)), !Plain(text[0]), !Plain(text[|text| - 1]));
      }
    }
  }

  lemma JoinLength(words: seq<string>)
    requires AreWords(words)
    ensures |Join(words)| >= 2 <==> |words| > 1 || |words[0]| > 1
  {
    assert IsWord(words[0]) && IsWord(words[|words| - 1]);
    if |words| > 1 {
      var front := words[..|words| - 1];
      assert Join(words) == Join(front) + ['-'] + words[|words| - 1];
    }
  }

  /** The fallback is used exactly for a text without words, or with a single word of one character. */
  lemma FallbackIff(normalize: string -> string, value: string, fallback: string)
    ensures var words := Runs(normalize(value));
            Slugify(normalize, value, fallback) ==
            if words == [] || (|words| == 1 && |words[0]| == 1) then fallback else Join(words)
  {
    var text := normalize(value);
    HyphenatedJoinsTheWords(text);
    if Runs(text) != [] {
      assert text != [];
      CollapsedIsJoined(text);
      JoinLength(Runs(text));
      assert IsWord(Runs(text)[0]);
    }
  }
}
