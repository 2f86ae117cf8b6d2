/**
 * The text extraction of crawler/src/parsers/http_parser.rs: from a response body to clean
 * text, whitespace-separated tokens and their stems. The removal of script, style and comment
 * blocks (three regular expressions) and the English stemmer are given as functions; the tag
 * strip, the character replacement and the tokeniser are modelled.
 */
module HttpParser {
  import opened Basics
  import opened Text
  import opened Http

  datatype HttpMetadata = HttpMetadata(cleanText: string, tokens: seq<string>, stemmedTokens: seq<string>)

  // ---------------------------------------------------------------- tag strip

  /**
   * `<[^>]*>` replaced by nothing, leftmost match first: a `<` with a `>` somewhere after it
   * opens a tag that ends at the first such `>`; a `<` with no `>` after it is text.
   */
  function StripTags(s: string): string
    decreases |s|
  {
    if s == [] then []
    else if s[0] == '<' && '>' in s then StripTags(After(s, '>'))
    else [s[0]] + StripTags(s[1..])
  }

  /** No `<` is followed, anywhere later, by a `>`: there is no tag left to strip. */
  predicate TagFree(s: string) {
    forall i, j | 0 <= i < j < |s| :: !(s[i] == '<' && s[j] == '>')
  }

  /** Stripping only removes characters. */
  lemma {:induction false} StripTagsChars(s: string)
    ensures forall c | c in StripTags(s) :: c in s
    decreases |s|
  {
    if s == [] {
    } else if s[0] == '<' && '>' in s {
      AfterSuffix(s, '>');
      StripTagsChars(After(s, '>'));
    } else {
      StripTagsChars(s[1..]);
    }
  }

  /** After the strip, no `<` is followed anywhere later by a `>`. */
  lemma {:induction false} StripTagsTagFree(s: string)
    ensures TagFree(StripTags(s))
    decreases |s|
  {
    if s == [] {
    } else if s[0] == '<' && '>' in s {
      StripTagsTagFree(After(s, '>'));
    } else {
      var rest := StripTags(s[1..]);
      StripTagsTagFree(s[1..]);
      StripTagsChars(s[1..]);
      var r := [s[0]] + rest;
      forall i, j | 0 <= i < j < |r| ensures !(r[i] == '<' && r[j] == '>') {
        if i == 0 {
          assert r[j] == rest[j - 1];
          assert r[j] in rest;
        } else {
          assert r[i] == rest[i - 1] && r[j] == rest[j - 1];
        }
      }
    }
  }

  /** Text without tags comes through unchanged. */
  lemma {:induction false} StripTagsKeepsText(s: string)
    requires TagFree(s)
    ensures StripTags(s) == s
    decreases |s|
  {
    if s != [] {
      if s[0] == '<' {
        OpenWithoutClose(s);
      }
      TagFreeTail(s);
      StripTagsKeepsText(s[1..]);
    }
  }

  /** In tag-free text, a leading `<` is never closed. */
  lemma OpenWithoutClose(s: string)
    requires TagFree(s) && s != [] && s[0] == '<'
    ensures '>' !in s
  {
    forall j | 0 <= j < |s| ensures s[j] != '>' {
      if j > 0 {
        assert !(s[0] == '<' && s[j] == '>');
      }
    }
  }

  /** Dropping the first character keeps text tag-free. */
  lemma TagFreeTail(s: string)
    requires TagFree(s) && s != []
    ensures TagFree(s[1..])
  {
    forall i, j | 0 <= i < j < |s[1..]| ensures !(s[1..][i] == '<' && s[1..][j] == '>') {
      assert s[1..][i] == s[i + 1] && s[1..][j] == s[j + 1];
    }
  }

  /** Stripping twice strips no more than stripping once. */
  lemma StripTagsIdempotent(s: string)
    ensures StripTags(StripTags(s)) == StripTags(s)
  {
    StripTagsTagFree(s);
    StripTagsKeepsText(StripTags(s));
  }

  // ---------------------------------------------------------------- character replacement

  /** The twelve characters the chain of `replace` calls turns into a space, in call order. */
  const Specials: seq<char> := ['\n', '\r', '\t', '\U{00A0}', '\U{200B}', '\U{200E}', '\U{200F}',
                                '\U{2028}', '\U{2029}', '\U{3000}', '\U{FEFF}', '\U{FFFD}']

  /** `s.replace(c, " ")` for a one-character pattern. */
  function ReplaceChar(s: string, c: char): (r: string)
    ensures |r| == |s|
  {
    seq(|s|, i requires 0 <= i < |s| => if s[i] == c then ' ' else s[i])
  }

  /** The chain `s.replace(cs[0], " ").replace(cs[1], " ")...`. */
  function ReplaceEach(s: string, cs: seq<char>): string
    decreases |cs|
  {
    if cs == [] then s else ReplaceEach(ReplaceChar(s, cs[0]), cs[1..])
  }

  /** Every character of `cs` becomes a space in one pass; the others stay. */
  function Blank(s: string, cs: seq<char>): string {
    seq(|s|, i requires 0 <= i < |s| => if s[i] in cs then ' ' else s[i])
  }

  /** When no replaced character is a space, the chain equals the single pass. */
  lemma {:induction false} ReplaceEachBlanks(s: string, cs: seq<char>)
    requires ' ' !in cs
    ensures ReplaceEach(s, cs) == Blank(s, cs)
    decreases |cs|
  {
    if cs != [] {
      var t := ReplaceChar(s, cs[0]);
      ReplaceEachBlanks(t, cs[1..]);
      assert Blank(t, cs[1..]) == Blank(s, cs) by {
        forall i | 0 <= i < |s| ensures Blank(t, cs[1..])[i] == Blank(s, cs)[i] {
          assert s[i] in cs <==> s[i] == cs[0] || s[i] in cs[1..];
        }
      }
    }
  }

  /** Step 5: the replacement chain over the special characters, from the `k`-th call on. */
  function ReplaceFrom(s: string, k: nat): string
    decreases |Specials| - k
  {
    if k >= |Specials| then s else ReplaceFrom(ReplaceChar(s, Specials[k]), k + 1)
  }

  function CleanText(s: string): string {
    ReplaceFrom(s, 0)
  }

  /** The chain from the `k`-th call on is the general chain over the remaining characters. */
  lemma {:induction false} ReplaceFromEach(s: string, k: nat)
    ensures ReplaceFrom(s, k) == ReplaceEach(s, if k < |Specials| then Specials[k..] else [])
    decreases |Specials| - k
  {
    if k < |Specials| {
      ReplaceFromEach(ReplaceChar(s, Specials[k]), k + 1);
      assert Specials[k..][1..] == if k + 1 < |Specials| then Specials[k + 1..] else [];
    }
  }

  lemma SpaceNotSpecial()
    ensures ' ' !in Specials
  {
  }

  /** The whole chain of step 5 is one pass that blanks the special characters. */
  lemma CleanTextIsBlank(s: string)
    ensures CleanText(s) == Blank(s, Specials)
  {
    ReplaceFromEach(s, 0);
    assert Specials[0..] == Specials;
    SpaceNotSpecial();
    ReplaceEachBlanks(s, Specials);
  }

  /** Blanking characters other than the space leaves none of them. */
  lemma BlankRemoves(s: string, cs: seq<char>)
    requires ' ' !in cs
    ensures forall c | c in cs :: c !in Blank(s, cs)
  {
  }

  /** Blanking characters cannot create a tag. */
  lemma BlankKeepsTagFree(s: string, cs: seq<char>)
    requires TagFree(s)
    ensures TagFree(Blank(s, cs))
  {
    var b := Blank(s, cs);
    forall i, j | 0 <= i < j < |b| ensures !(b[i] == '<' && b[j] == '>') {
      assert b[i] == ' ' || b[i] == s[i];
      assert b[j] == ' ' || b[j] == s[j];
    }
  }

  /**
   * The replacement keeps the character count and every other character in place, and leaves
   * none of the special characters.
   */
  lemma CleanTextBlanks(s: string)
    ensures |CleanText(s)| == |s|
    ensures forall i | 0 <= i < |s| :: CleanText(s)[i] == if s[i] in Specials then ' ' else s[i]
    ensures forall c | c in Specials :: c !in CleanText(s)
  {
    CleanTextIsBlank(s);
    SpaceNotSpecial();
    BlankRemoves(s, Specials);
  }

  /** Replacing special characters by spaces cannot create a tag. */
  lemma CleanTextTagFree(s: string)
    requires TagFree(s)
    ensures TagFree(CleanText(s))
  {
    CleanTextIsBlank(s);
    BlankKeepsTagFree(s, Specials);
  }

  // ---------------------------------------------------------------- tokens

  /** The number of non-whitespace characters `s` starts with. */
  function WordLength(s: string): (n: nat)
    ensures n <= |s|
  {
    if s == [] || IsWhitespace(s[0]) then 0 else 1 + WordLength(s[1..])
  }

  /** A token: non-empty, with no whitespace. */
  predicate IsWord(t: string) {
    t != [] && forall k | 0 <= k < |t| :: !IsWhitespace(t[k])
  }

  /** `split_whitespace`: the maximal runs of non-whitespace characters, in order. */
  function Tokens(s: string): seq<string>
    decreases |s|
  {
    if s == [] then []
    else if IsWhitespace(s[0]) then Tokens(s[1..])
    else
      var n := WordLength(s);
      [s[..n]] + Tokens(s[n..])
  }

  /** The characters of `s` that are not whitespace, in order. */
  function NonSpace(s: string): string {
    if s == [] then [] else (if IsWhitespace(s[0]) then [] else [s[0]]) + NonSpace(s[1..])
  }

  /** The words joined by single spaces. */
  function JoinSpace(ws: seq<string>): string {
    if ws == [] then [] else if |ws| == 1 then ws[0] else ws[0] + " " + JoinSpace(ws[1..])
  }

  lemma {:induction false} WordLengthRun(s: string)
    ensures forall k | 0 <= k < WordLength(s) :: !IsWhitespace(s[k])
    ensures WordLength(s) < |s| ==> IsWhitespace(s[WordLength(s)])
  {
    if s != [] && !IsWhitespace(s[0]) {
      WordLengthRun(s[1..]);
    }
  }

  /** A word followed by whitespace, or by nothing, is counted whole. */
  lemma {:induction false} WordLengthOfWord(w: string, rest: string)
    requires IsWord(w) && (rest == [] || IsWhitespace(rest[0]))
    ensures WordLength(w + rest) == |w|
    decreases |w|
  {
    if |w| > 1 {
      assert (w + rest)[1..] == w[1..] + rest;
      WordLengthOfWord(w[1..], rest);
    } else {
      assert (w + rest)[1..] == rest;
    }
  }

  /** Every token is a non-empty run without whitespace. */
  lemma {:induction false} TokensAreWords(s: string)
    ensures forall i | 0 <= i < |Tokens(s)| :: IsWord(Tokens(s)[i])
    decreases |s|
  {
    if s != [] {
      if IsWhitespace(s[0]) {
        TokensAreWords(s[1..]);
      } else {
        WordLengthRun(s);
        TokensAreWords(s[WordLength(s)..]);
      }
    }
  }

  lemma {:induction false} NonSpaceAppend(a: string, b: string)
    ensures NonSpace(a + b) == NonSpace(a) + NonSpace(b)
    decreases |a|
  {
    if a == [] {
      assert a + b == b;
    } else {
      assert (a + b)[1..] == a[1..] + b;
      NonSpaceAppend(a[1..], b);
    }
  }

  lemma {:induction false} NonSpaceOfWord(w: string)
    requires forall k | 0 <= k < |w| :: !IsWhitespace(w[k])
    ensures NonSpace(w) == w
    decreases |w|
  {
    if w != [] {
      NonSpaceOfWord(w[1..]);
    }
  }

  /** Tokenising loses exactly the whitespace: the tokens put together are the other characters. */
  lemma {:induction false} TokensConcat(s: string)
    ensures Concat(Tokens(s)) == NonSpace(s)
    decreases |s|
  {
    if s != [] {
      if IsWhitespace(s[0]) {
        TokensConcat(s[1..]);
      } else {
        var n := WordLength(s);
        WordLengthRun(s);
        TokensConcat(s[n..]);
        assert s == s[..n] + s[n..];
        NonSpaceAppend(s[..n], s[n..]);
        NonSpaceOfWord(s[..n]);
      }
    }
  }

  /** Joining words by single spaces and splitting the result again gives the words back. */
  lemma {:induction false} TokensOfJoin(ws: seq<string>)
    requires forall i | 0 <= i < |ws| :: IsWord(ws[i])
    ensures Tokens(JoinSpace(ws)) == ws
    decreases |ws|
  {
    if |ws| == 1 {
      var w := ws[0];
      WordLengthOfWord(w, []);
      assert w + [] == w;
      assert w[|w|..] == [];
    } else if |ws| > 1 {
      var w, rest := ws[0], JoinSpace(ws[1..]);
      var s := w + " " + rest;
      WordLengthOfWord(w, " " + rest);
      assert s == w + (" " + rest);
      assert s[..|w|] == w;
      assert s[|w|..] == " " + rest;
      assert (" " + rest)[1..] == rest;
      TokensOfJoin(ws[1..]);
    }
  }

  /** Tokenising is a normal form: re-tokenising the tokens joined by spaces changes nothing. */
  lemma TokensNormalForm(s: string)
    ensures Tokens(JoinSpace(Tokens(s))) == Tokens(s)
  {
    TokensAreWords(s);
    TokensOfJoin(Tokens(s));
  }

  /** A word is a single token. */
  lemma TokensOfWord(w: string)
    requires IsWord(w)
    ensures Tokens(w) == [w]
  {
    WordLengthOfWord(w, []);
    assert w + [] == w;
    assert w[|w|..] == [];
  }

  /** The leading run of `a` is not lengthened by what follows when it ends inside `a` or at whitespace. */
  lemma {:induction false} WordLengthPrefix(a: string, rest: string)
    requires WordLength(a) < |a| || (rest != [] && IsWhitespace(rest[0]))
    ensures WordLength(a + rest) == WordLength(a)
    decreases |a|
  {
    if a == [] {
      assert a + rest == rest;
    } else if !IsWhitespace(a[0]) {
      assert (a + rest)[1..] == a[1..] + rest;
      WordLengthPrefix(a[1..], rest);
    }
  }

  /** Maximality: no token spans a whitespace character, so splitting there splits the tokens. */
  lemma {:induction false} TokensSplit(a: string, c: char, b: string)
    requires IsWhitespace(c)
    ensures Tokens(a + [c] + b) == Tokens(a) + Tokens(b)
    decreases |a|
  {
    var s := a + [c] + b;
    if a == [] {
      assert s == [c] + b;
      assert s[1..] == b;
    } else if IsWhitespace(a[0]) {
      assert s[1..] == a[1..] + [c] + b;
      TokensSplit(a[1..], c, b);
    } else {
      var n := WordLength(a);
      assert s == a + ([c] + b);
      WordLengthPrefix(a, [c] + b);
      assert 0 < n <= |a|;
      assert s[..n] == a[..n];
      assert s[n..] == a[n..] + [c] + b;
      TokensSplit(a[n..], c, b);
    }
  }

  /** `TokensSplit` at a position of `s`. */
  lemma TokensSplitAt(s: string, k: nat)
    requires k < |s| && IsWhitespace(s[k])
    ensures Tokens(s) == Tokens(s[..k]) + Tokens(s[k + 1..])
  {
    assert s == s[..k] + [s[k]] + s[k + 1..];
    TokensSplit(s[..k], s[k], s[k + 1..]);
  }

  /** Text that is all whitespace, the empty text included, has no tokens. */
  lemma {:induction false} BlankTextHasNoTokens(s: string)
    requires forall k | 0 <= k < |s| :: IsWhitespace(s[k])
    ensures Tokens(s) == []
    decreases |s|
  {
    if s != [] {
      BlankTextHasNoTokens(s[1..]);
    }
  }

  // ---------------------------------------------------------------- parse_http

  /**
   * `parse_http`: the body (empty when `extra` is None) loses its script, style and comment
   * blocks (`removeBlocks`) and its tags, then the special characters become spaces; the
   * tokens are that text's words, and each is stemmed.
   */
  function ParseHttp(res: HttpResponse, removeBlocks: string -> string, stem: string -> string): HttpMetadata {
    var clean := CleanBody(res, removeBlocks);
    var tokens := Tokens(clean);
    HttpMetadata(clean, tokens, Stems(tokens, stem))
  }

  /** The body of `res`, or the empty text without `extra`, cleaned by steps 1 to 5. */
  function CleanBody(res: HttpResponse, removeBlocks: string -> string): string {
    CleanText(StripTags(removeBlocks(if res.extra.Some? then res.extra.value.body else "")))
  }

  /**
   * What `parse_http` promises: the clean text has the length of the stripped text, no tag and
   * none of the special characters; the tokens are its non-empty whitespace-free runs, which
   * put together give its non-whitespace characters, and they are maximal: splitting the text
   * at any whitespace character splits the tokens there, and a text that is one word is one
   * token; each token has its stem; and a response
   * without `extra` gives no text and no tokens.
   */
  lemma ParseHttpMeets(res: HttpResponse, removeBlocks: string -> string, stem: string -> string)
    ensures var m := ParseHttp(res, removeBlocks, stem);
            && |m.cleanText| == |StripTags(removeBlocks(if res.extra.Some? then res.extra.value.body else ""))|
            && TagFree(m.cleanText)
            && (forall c | c in Specials :: c !in m.cleanText)
            && (forall i | 0 <= i < |m.tokens| :: IsWord(m.tokens[i]))
            && Concat(m.tokens) == NonSpace(m.cleanText)
            && (forall k | 0 <= k < |m.cleanText| && IsWhitespace(m.cleanText[k]) ::
                  m.tokens == Tokens(m.cleanText[..k]) + Tokens(m.cleanText[k + 1..]))
            && (IsWord(m.cleanText) ==> m.tokens == [m.cleanText])
            && |m.stemmedTokens| == |m.tokens|
            && (forall i | 0 <= i < |m.tokens| :: m.stemmedTokens[i] == stem(m.tokens[i]))
            && (res.extra.None? && removeBlocks("") == "" ==> m.cleanText == "" && m.tokens == [])
  {
    var raw := if res.extra.Some? then res.extra.value.body else "";
    var stripped := StripTags(removeBlocks(raw));
    var clean := CleanText(stripped);
    StripTagsTagFree(removeBlocks(raw));
    CleanTextBlanks(stripped);
    CleanTextTagFree(stripped);
    TokensAreWords(clean);
    TokensConcat(clean);
    forall k | 0 <= k < |clean| && IsWhitespace(clean[k])
      ensures Tokens(clean) == Tokens(clean[..k]) + Tokens(clean[k + 1..])
    {
      TokensSplitAt(clean, k);
    }
    if IsWord(clean) {
      TokensOfWord(clean);
    }
  }

  /** Each token stemmed, in order. */
  function Stems(tokens: seq<string>, stem: string -> string): (r: seq<string>)
    ensures |r| == |tokens|
    ensures forall i | 0 <= i < |tokens| :: r[i] == stem(tokens[i])
  {
    seq(|tokens|, i requires 0 <= i < |tokens| => stem(tokens[i]))
  }
}
