/**
 The milestone extractor of the career coach: the global regular expression
 `\[SKILL:\s*([^\]]+)\]` run over a model turn, collecting each trimmed capture and
 deleting each matched span from the displayed text.

 A match at a position needs the literal, case-sensitive `[SKILL:` there and then a
 non-empty run of characters other than `]` closed by a `]`; since neither `\s*` nor
 `[^\]]+` can cross a `]`, the closing bracket is the first one after the opener.
 A global scan takes the leftmost match, resumes right after it, and where no match
 starts it moves on by one character. That scan is modelled as the unique way of cutting
 the text into single literal characters and whole tags such that no literal character
 starts a tag.
 */
module SkillTags {
  import opened Optional
  import opened Strings

  const Opener: string := "[SKILL:"

  /** One step of the scan: a character kept in the displayed text, or a matched tag
      `[SKILL:` + body + `]` that is removed from it. */
  datatype Piece = Lit(c: char) | Tag(body: string)

  /** `s` begins with a tag whose text between `[SKILL:` and the closing `]` is `body`. */
  predicate IsTagPrefix(s: string, body: string) {
    && |body| > 0
    && ']' !in body
    && |s| >= |body| + 8
    && s[..|body| + 8] == Opener + body + "]"
  }

  /** The index of the first `]` in `s`. */
  function CloseBracket(s: string): (r: Option<nat>)
    ensures r.Some? ==> r.value < |s| && s[r.value] == ']' && ']' !in s[..r.value]
    ensures r.None? ==> ']' !in s
  {
    if |s| == 0 then None
    else if s[0] == ']' then Some(0)
    else match CloseBracket(s[1..])
      case Some(j) => Some(j + 1)
      case None => None
  }

  /** The body of the tag the regular expression matches at the start of `s`, if any. */
  function TagAt(s: string): (r: Option<string>)
    ensures r.Some? ==> IsTagPrefix(s, r.value)
    ensures forall body :: IsTagPrefix(s, body) ==> r == Some(body)
  {
    TagPrefixesFound(s);
    FirstTag(s)
  }

  /** The opener, then the text up to the first `]` when that text is not empty. */
  function FirstTag(s: string): (r: Option<string>)
    ensures r.Some? ==> IsTagPrefix(s, r.value)
  {
    if |s| < |Opener| || s[..|Opener|] != Opener then None
    else match CloseBracket(s[|Opener|..])
      case Some(j) =>
        if j > 0 then
          TagFromBracket(s, j);
          Some(s[|Opener|..|Opener| + j])
        else None
      case None => None
  }

  /** The opener followed by a non-empty run closed by its first `]` is a tag. */
  lemma TagFromBracket(s: string, j: nat)
    requires |s| >= |Opener| && s[..|Opener|] == Opener
    requires CloseBracket(s[|Opener|..]) == Some(j) && j > 0
    ensures IsTagPrefix(s, s[|Opener|..|Opener| + j])
  {
    var body := s[|Opener|..|Opener| + j];
    assert s[..|body| + 8] == s[..7] + body + [s[7 + j]];
  }

  /** A match at the start of `s` exists exactly when `s` begins with a well-formed tag, and
      the matched body is the only one that fits. */
  lemma TagAtExact(s: string, body: string)
    ensures TagAt(s) == Some(body) <==> IsTagPrefix(s, body)
  {
  }

  /** Where a tag starts, the opener is there and its first `]` closes the body. */
  lemma TagPrefixFound(s: string, body: string)
    requires IsTagPrefix(s, body)
    ensures FirstTag(s) == Some(body)
  {
    var whole := Opener + body + "]";
    var rest := s[|Opener|..];
    assert s[..|Opener|] == whole[..|Opener|];
    assert whole[..|Opener|] == Opener;
    assert rest[..|body|] == whole[|Opener|..|Opener| + |body|];
    assert whole[|Opener|..|Opener| + |body|] == body;
    assert rest[|body|] == whole[|Opener| + |body|];
    CloseBracketFirst(rest, |body|);
  }

  lemma TagPrefixesFound(s: string)
    ensures forall body | IsTagPrefix(s, body) :: FirstTag(s) == Some(body)
  {
    forall body | IsTagPrefix(s, body) ensures FirstTag(s) == Some(body) {
      TagPrefixFound(s, body);
    }
  }

  lemma {:induction false} CloseBracketFirst(s: string, j: nat)
    requires j < |s| && s[j] == ']' && ']' !in s[..j]
    ensures CloseBracket(s) == Some(j)
    decreases j
  {
    if j > 0 {
      assert s[0] in s[..j];
      assert s[1..][..j - 1] == s[1..j];
      assert forall c :: c in s[1..j] ==> c in s[..j];
      CloseBracketFirst(s[1..], j - 1);
    }
  }

  /** The text a list of pieces stands for. */
  function Flatten(ps: seq<Piece>): string
  {
    if |ps| == 0 then ""
    else
      match ps[0]
      case Lit(c) => [c] + Flatten(ps[1..])
      case Tag(b) => Opener + b + "]" + Flatten(ps[1..])
  }

  /** Every tag is one the regular expression matches, and no literal character is a
      position where a match starts: the cut the global scan makes. */
  predicate Valid(ps: seq<Piece>)
  {
    |ps| == 0 ||
    (&& (match ps[0]
         case Lit(_) => TagAt(Flatten(ps)).None?
         case Tag(b) => |b| > 0 && ']' !in b)
     && Valid(ps[1..]))
  }

  /** The global scan of `s`, left to right. */
  function Parse(s: string): (ps: seq<Piece>)
    ensures Valid(ps)
    ensures Flatten(ps) == s
    decreases |s|
  {
    if |s| == 0 then []
    else
      match TagAt(s)
      case Some(b) =>
        var rest := Parse(s[|b| + 8..]);
        TagPieceProperties(b, rest);
        SplitAt(s, |b| + 8);
        [Tag(b)] + rest
      case None =>
        var rest := Parse(s[1..]);
        assert s == [s[0]] + s[1..];
        LitPieceProperties(s[0], rest);
        [Lit(s[0])] + rest
  }

  /** The scan is the only valid cut: any valid cut of a text is the one `Parse` makes. */
  lemma {:induction false} ParseUnique(ps: seq<Piece>)
    requires Valid(ps)
    ensures Parse(Flatten(ps)) == ps
    decreases |ps|
  {
    if |ps| > 0 {
      var s := Flatten(ps);
      ParseUnique(ps[1..]);
      assert ps == [ps[0]] + ps[1..];
      match ps[0]
      case Lit(c) =>
        assert s[1..] == Flatten(ps[1..]);
      case Tag(b) =>
        assert s == Opener + b + "]" + Flatten(ps[1..]);
        assert s[..|b| + 8] == Opener + b + "]";
        TagAtExact(s, b);
        assert s[|b| + 8..] == Flatten(ps[1..]);
    }
  }

  /** The text with exactly the matched spans deleted. */
  function Literals(ps: seq<Piece>): string
  {
    if |ps| == 0 then ""
    else
      match ps[0]
      case Lit(c) => [c] + Literals(ps[1..])
      case Tag(_) => Literals(ps[1..])
  }

  /** The number of matched spans. */
  function TagCount(ps: seq<Piece>): nat
  {
    if |ps| == 0 then 0
    else (if ps[0].Tag? then 1 else 0) + TagCount(ps[1..])
  }

  /** The trimmed tag bodies, in order. */
  function Names(ps: seq<Piece>): (names: seq<string>)
    ensures |names| == TagCount(ps)
  {
    if |ps| == 0 then []
    else
      match ps[0]
      case Lit(_) => Names(ps[1..])
      case Tag(b) => [Trim(b)] + Names(ps[1..])
  }

  /** Capture group 1 for a matched body: the greedy `\s*` takes the longest run of leading
      whitespace that still leaves the `+` at least one character. */
  function Capture(body: string): (r: string)
    requires |body| > 0
    ensures 0 < |r| <= |body| && r == body[|body| - |r|..]
    ensures AllSpace(body[..|body| - |r|])
    ensures |r| > 1 ==> !IsSpace(r[0])
  {
    var t := TrimStart(body);
    if |t| > 0 then t else body[|body| - 1..]
  }

  /** Trimming the capture group gives the trimmed body, whatever `\s*` swallowed. */
  lemma CaptureTrim(body: string)
    requires |body| > 0
    ensures Trim(Capture(body)) == Trim(body)
  {
    var c := Capture(body);
    assert body == body[..|body| - |c|] + c;
    TrimSkipsLeadingSpace(body[..|body| - |c|], c);
  }

  /** What `renderMessageContent` computes for a model turn: the milestone chips and the
      displayed text. */
  datatype Extraction = Extraction(skills: seq<string>, cleanText: string)

  /** The `exec` loop and the `replace` call, sharing one scan. */
  function Scan(ps: seq<Piece>): (r: Extraction)
    requires Valid(ps)
    ensures |r.skills| == TagCount(ps)
    ensures r.skills == Names(ps)
    ensures r.cleanText == Literals(ps)
  {
    if |ps| == 0 then Extraction([], "")
    else
      var rest := Scan(ps[1..]);
      match ps[0]
      case Lit(c) => Extraction(rest.skills, [c] + rest.cleanText)
      case Tag(b) =>
        CaptureTrim(b);
        Extraction([Trim(Capture(b))] + rest.skills, rest.cleanText)
  }

  function Extract(text: string): (r: Extraction)
    ensures forall i :: 0 <= i < |r.skills| ==> IsTrimmed(r.skills[i])
    ensures IsTrimmed(r.cleanText)
    ensures |r.cleanText| <= |text|
  {
    var ps := Parse(text);
    var scanned := Scan(ps);
    NamesTrimmed(ps);
    LiteralsShorter(ps);
    Extraction(scanned.skills, Trim(scanned.cleanText))
  }

  lemma {:induction false} NamesTrimmed(ps: seq<Piece>)
    ensures forall i :: 0 <= i < |Names(ps)| ==> IsTrimmed(Names(ps)[i])
    decreases |ps|
  {
    if |ps| > 0 {
      NamesTrimmed(ps[1..]);
      var tail := Names(ps[1..]);
      match ps[0]
      case Lit(_) =>
        assert Names(ps) == tail;
      case Tag(b) =>
        var n := Trim(b);
        assert Names(ps) == [n] + tail;
        AllTrimmedCons(n, tail);
    }
  }

  lemma AllTrimmedCons(n: string, tail: seq<string>)
    requires IsTrimmed(n)
    requires forall i :: 0 <= i < |tail| ==> IsTrimmed(tail[i])
    ensures forall i :: 0 <= i < |[n] + tail| ==> IsTrimmed(([n] + tail)[i])
  {
  }

  lemma {:induction false} LiteralsShorter(ps: seq<Piece>)
    ensures |Literals(ps)| <= |Flatten(ps)|
    decreases |ps|
  {
    if |ps| > 0 {
      LiteralsShorter(ps[1..]);
    }
  }

  /** The extractor's meaning: for the cut of the text into kept characters and matched tags
      (the only valid one), the chips are the trimmed tag bodies in order, one per deleted
      span, and the displayed text is the kept characters, trimmed. */
  lemma ExtractMeaning(text: string, ps: seq<Piece>)
    requires Valid(ps) && Flatten(ps) == text
    ensures Extract(text).skills == Names(ps)
    ensures |Extract(text).skills| == TagCount(ps)
    ensures Extract(text).cleanText == Trim(Literals(ps))
  {
    ParseUnique(ps);
  }

  /** A match starts at position `i` of `text`. */
  predicate MatchesAt(text: string, i: nat)
    requires i <= |text|
  {
    TagAt(text[i..]).Some?
  }

  lemma {:induction false} NoMatchAllLiterals(text: string)
    requires forall i | 0 <= i <= |text| :: !MatchesAt(text, i)
    ensures TagCount(Parse(text)) == 0 && Literals(Parse(text)) == text
    decreases |text|
  {
    if |text| > 0 {
      assert !MatchesAt(text, 0) && text[0..] == text;
      forall i | 0 <= i <= |text[1..]| ensures !MatchesAt(text[1..], i) {
        assert text[1..][i..] == text[i + 1..];
        assert !MatchesAt(text, i + 1);
      }
      NoMatchAllLiterals(text[1..]);
      assert text == [text[0]] + text[1..];
    }
  }

  lemma {:induction false} MatchGivesTag(text: string, i: nat)
    requires i <= |text| && MatchesAt(text, i)
    ensures TagCount(Parse(text)) > 0
    decreases |text|
  {
    if TagAt(text).None? {
      assert i > 0 by { assert text[0..] == text; }
      assert text[1..][i - 1..] == text[i..];
      MatchGivesTag(text[1..], i - 1);
    }
  }

  /** No chips appear exactly when the pattern matches nowhere in the text; then the displayed
      text is the whole text, trimmed. */
  lemma NoChipsIffNoMatch(text: string)
    ensures Extract(text).skills == [] <==> forall i | 0 <= i <= |text| :: !MatchesAt(text, i)
    ensures Extract(text).skills == [] ==> Extract(text).cleanText == Trim(text)
  {
    var ps := Parse(text);
    ExtractMeaning(text, ps);
    if forall i | 0 <= i <= |text| :: !MatchesAt(text, i) {
      NoMatchAllLiterals(text);
    } else {
      var i :| 0 <= i <= |text| && MatchesAt(text, i);
      MatchGivesTag(text, i);
    }
  }

  /** The pieces for a run of text kept as it is. */
  function Lits(t: string): (ps: seq<Piece>)
    ensures |ps| == |t|
  {
    if |t| == 0 then [] else [Lit(t[0])] + Lits(t[1..])
  }

  lemma {:induction false} LitsProperties(t: string, rest: seq<Piece>)
    requires '[' !in t && Valid(rest)
    ensures Valid(Lits(t) + rest)
    ensures Flatten(Lits(t) + rest) == t + Flatten(rest)
    ensures Literals(Lits(t) + rest) == t + Literals(rest)
    ensures Names(Lits(t) + rest) == Names(rest)
    decreases |t|
  {
    if |t| > 0 {
      var ps' := Lits(t[1..]) + rest;
      assert Lits(t) + rest == [Lit(t[0])] + ps';
      assert '[' !in t[1..] by {
        assert forall c :: c in t[1..] ==> c in t;
      }
      LitsProperties(t[1..], rest);
      assert t[0] != '[' by { assert t[0] in t; }
      DiffersFromOpener([t[0]] + Flatten(ps'), 0);
      ConsConcat(t, Flatten(rest));
      ConsConcat(t, Literals(rest));
      LitPieceProperties(t[0], ps');
    } else {
      assert Lits(t) + rest == rest;
    }
  }

  /** Text that differs from `[SKILL:` at some position below 7 does not begin with a tag. */
  lemma DiffersFromOpener(f: string, j: nat)
    requires j < |Opener| && (j >= |f| || f[j] != Opener[j])
    ensures TagAt(f).None?
  {
    if |f| >= |Opener| {
      assert f[..|Opener|][j] != Opener[j];
    }
  }

  lemma NoMatchAt(text: string, k: nat, j: nat)
    requires j < |Opener| && k + j < |text| && text[k + j] != Opener[j]
    ensures !MatchesAt(text, k)
  {
    assert text[k..][j] == text[k + j];
    DiffersFromOpener(text[k..], j);
  }

  lemma TagPieceProperties(b: string, rest: seq<Piece>)
    requires |b| > 0 && ']' !in b && Valid(rest)
    ensures Valid([Tag(b)] + rest)
    ensures Flatten([Tag(b)] + rest) == Opener + b + "]" + Flatten(rest)
    ensures Literals([Tag(b)] + rest) == Literals(rest)
    ensures Names([Tag(b)] + rest) == [Trim(b)] + Names(rest)
  {
    assert ([Tag(b)] + rest)[1..] == rest;
  }

  lemma LitPieceProperties(c: char, rest: seq<Piece>)
    requires Valid(rest) && TagAt([c] + Flatten(rest)).None?
    ensures Valid([Lit(c)] + rest)
    ensures Flatten([Lit(c)] + rest) == [c] + Flatten(rest)
    ensures Literals([Lit(c)] + rest) == [c] + Literals(rest)
    ensures Names([Lit(c)] + rest) == Names(rest)
  {
    assert ([Lit(c)] + rest)[1..] == rest;
  }

  /** Text made of a tag-free run, a tag, another tag-free run and a second tag. */
  lemma TwoTags(text: string, pre: string, b1: string, mid: string, b2: string)
    requires '[' !in pre && '[' !in mid
    requires |b1| > 0 && ']' !in b1 && |b2| > 0 && ']' !in b2
    requires text == pre + ((Opener + b1 + "]") + (mid + (Opener + b2 + "]")))
    ensures Extract(text).skills == [Trim(b1), Trim(b2)]
  {
    var p3 := TextThenTag(mid, b2);
    TagPieceProperties(b1, p3);
    var p2 := [Tag(b1)] + p3;
    LitsProperties(pre, p2);
    ExtractMeaning(text, Lits(pre) + p2);
    PairNames(Trim(b1), Trim(b2));
  }

  lemma PairNames(n1: string, n2: string)
    ensures [n1] + [n2] == [n1, n2]
  {
  }

  /** The pieces of a tag-free run followed by one tag. */
  function TextThenTag(t: string, b: string): (ps: seq<Piece>)
    requires '[' !in t && |b| > 0 && ']' !in b
    ensures Valid(ps)
    ensures Flatten(ps) == t + (Opener + b + "]")
    ensures Names(ps) == [Trim(b)]
  {
    var tag := OneTagPieces(b, "");
    assert Opener + b + "]" + "" == Opener + b + "]";
    LitsProperties(t, tag);
    Lits(t) + tag
  }

  /** A model turn with two identical tags yields the name twice: duplicates are kept here
      and only the registry removes them. */
  lemma DuplicateTagsBothExtracted(text: string)
    requires text == "Learn [SKILL: React] and [SKILL: React]"
    ensures Extract(text).skills == ["React", "React"]
  {
    ReactPiecesTagFree();
    ReactTag();
    ReactText();
    ReactTrim();
    TwoTags(text, "Learn ", " React", " and ", " React");
  }

  lemma ReactPiecesTagFree()
    ensures '[' !in "Learn " && '[' !in " and " && ']' !in " React"
  {
  }

  lemma ReactText()
    ensures "Learn [SKILL: React] and [SKILL: React]"
         == "Learn " + ("[SKILL: React]" + (" and " + "[SKILL: React]"))
  {
  }

  lemma ReactTag()
    ensures Opener + " React" + "]" == "[SKILL: React]"
  {
  }


  lemma ReactTrim()
    ensures Trim(" React") == "React"
  {
    assert " React" == " " + "React" + "";
    TrimOfPadded(" ", "React", "");
  }

  lemma NoMatchShift(t: string, f: string)
    requires |t| > 0
    requires forall k | 0 <= k < |t| :: !MatchesAt(t + f, k)
    ensures forall k | 0 <= k < |t| - 1 :: !MatchesAt(t[1..] + f, k)
  {
    forall k | 0 <= k < |t| - 1 ensures !MatchesAt(t[1..] + f, k) {
      assert (t[1..] + f)[k..] == (t + f)[k + 1..];
      assert !MatchesAt(t + f, k + 1);
    }
  }

  lemma {:induction false} LitsBeforeValid(t: string, rest: seq<Piece>)
    requires Valid(rest)
    requires forall k | 0 <= k < |t| :: !MatchesAt(t + Flatten(rest), k)
    ensures Valid(Lits(t) + rest)
    ensures Flatten(Lits(t) + rest) == t + Flatten(rest)
    ensures Literals(Lits(t) + rest) == t + Literals(rest)
    ensures Names(Lits(t) + rest) == Names(rest)
    decreases |t|
  {
    if |t| > 0 {
      var f := Flatten(rest);
      var ps' := Lits(t[1..]) + rest;
      assert Lits(t) + rest == [Lit(t[0])] + ps';
      NoMatchShift(t, f);
      LitsBeforeValid(t[1..], rest);
      var whole := t + f;
      assert !MatchesAt(whole, 0);
      assert whole[0..] == whole;
      assert Flatten(ps') == t[1..] + f;
      ConsConcat(t, f);
      ConsConcat(t, Literals(rest));
      LitPieceProperties(t[0], ps');
    } else {
      assert Lits(t) + rest == rest;
    }
  }

  /** Text with exactly one tag, where no match starts before it and no `[` follows it. */
  lemma OneTag(text: string, pre: string, b: string, post: string)
    requires |b| > 0 && ']' !in b && '[' !in post
    requires text == pre + (Opener + b + "]" + post)
    requires forall k | 0 <= k < |pre| :: !MatchesAt(text, k)
    ensures Extract(text) == Extraction([Trim(b)], Trim(pre + post))
  {
    var rest := OneTagPieces(b, post);
    assert text == pre + Flatten(rest);
    LitsBeforeValid(pre, rest);
    ExtractMeaning(text, Lits(pre) + rest);
  }

  function OneTagPieces(b: string, post: string): (rest: seq<Piece>)
    requires |b| > 0 && ']' !in b && '[' !in post
    ensures Valid(rest)
    ensures Flatten(rest) == Opener + b + "]" + post
    ensures Literals(rest) == post
    ensures Names(rest) == [Trim(b)]
  {
    LitsProperties(post, []);
    assert Lits(post) + [] == Lits(post);
    assert Names([]) == [] && Literals([]) == [] && Flatten([]) == [];
    TagPieceProperties(b, Lits(post));
    [Tag(b)] + Lits(post)
  }

  /** The displayed text is not guaranteed to be free of tags: deleting a matched span can
      join its neighbours into a new tag. */
  lemma CleanTextMayHoldTag(text: string)
    requires text == "[SKI[SKILL:x]LL:y]"
    ensures Extract(text).skills == ["x"]
    ensures Extract(text).cleanText == "[SKILL:y]"
    ensures MatchesAt(Extract(text).cleanText, 0)
  {
    JoinedTextExtract(text);
    JoinedTextMatches(Extract(text).cleanText);
  }

  lemma JoinedTextExtract(text: string)
    requires text == "[SKI[SKILL:x]LL:y]"
    ensures Extract(text) == Extraction(["x"], "[SKILL:y]")
  {
    assert text == "[SKI" + (Opener + "x" + "]" + "LL:y]");
    assert ']' !in "x" && '[' !in "LL:y]";
    var rest := Opener + "x" + "]" + "LL:y]";
    assert rest[0] == Opener[0];
    JoinedTextNoEarlyMatch(text, rest);
    OneTag(text, "[SKI", "x", "LL:y]");
    JoinedTextTrim("x", "[SKI" + "LL:y]");
  }

  lemma JoinedTextNoEarlyMatch(text: string, rest: string)
    requires text == "[SKI" + rest && |rest| > 0 && rest[0] == '['
    ensures forall k | 0 <= k < 4 :: !MatchesAt(text, k)
  {
    assert text[4] == '[' && text[1] == 'S' && text[2] == 'K' && text[3] == 'I';
    NoMatchAt(text, 0, 4);
    NoMatchAt(text, 1, 0);
    NoMatchAt(text, 2, 0);
    NoMatchAt(text, 3, 0);
  }

  lemma JoinedTextTrim(x: string, joined: string)
    requires x == "x" && joined == "[SKI" + "LL:y]"
    ensures Trim(x) == "x" && Trim(joined) == "[SKILL:y]"
  {
    assert joined == "[SKILL:y]";
    assert !IsSpace('x') && !IsSpace('[') && !IsSpace(']');
    assert x[0] == 'x' && |x| == 1;
    TrimmedFixed(x);
    assert joined[0] == '[' && joined[|joined| - 1] == ']';
    TrimmedFixed(joined);
  }

  lemma JoinedTextMatches(clean: string)
    requires clean == "[SKILL:y]"
    ensures MatchesAt(clean, 0)
  {
    assert IsTagPrefix(clean, "y");
    TagAtExact(clean, "y");
    assert clean[0..] == clean;
  }

  /** What `renderMessageContent` shows: user turns verbatim, model turns with their tags
      turned into chips. */
  datatype Rendered = Verbatim(text: string) | Annotated(extraction: Extraction)

  function RenderMessageContent(text: string, isModel: bool): (r: Rendered)
    ensures !isModel ==> r == Verbatim(text)
    ensures isModel ==> r.Annotated? && r.extraction.skills == Names(Parse(text))
    ensures isModel ==> r.extraction.cleanText == Trim(Literals(Parse(text)))
  {
    if !isModel then Verbatim(text) else Annotated(Extract(text))
  }
}
