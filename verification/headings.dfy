/** Heading normalisation of `convert_docx_to_html` (conversion/googleDocToHTMLBulk.py):
    the first paragraph becomes the `h1` when the document has none, then every `h1` whose text
    reads like a placeholder title ("Title 1", "title7", ...) is removed. */
module Headings {
  import opened Wrappers
  import opened Text
  import opened Markup
  import Seqs

  /** The text of an element as the parser reports it when asked to strip: every text
      fragment stripped of surrounding whitespace, joined without separator. The result never
      begins or ends with whitespace. */
  function JoinStripped(fragments: seq<string>): (r: string)
    ensures Trimmed(r)
    decreases |fragments|
  {
    if |fragments| == 0 then ""
    else
      var head, rest := Strip(fragments[0]), JoinStripped(fragments[1..]);
      TrimmedConcat(head, rest);
      head + rest
  }

  function GetText(e: Element): string
  {
    JoinStripped(e.fragments)
  }

  predicate HasTag(tree: Tree, tag: string)
  {
    exists i | 0 <= i < |tree| :: tree[i].tag == tag
  }

  /** Position `k` holds the first element of the tree carrying `tag`. */
  predicate IsFirstWithTag(tree: Tree, tag: string, k: int)
  {
    0 <= k < |tree| && tree[k].tag == tag && forall j | 0 <= j < k :: tree[j].tag != tag
  }

  /** The parser's search for a tag: the position of the first element carrying `tag`, if any. */
  function FindFirst(tree: Tree, tag: string): (r: Option<nat>)
    ensures r.None? <==> !HasTag(tree, tag)
    ensures r.Some? ==> IsFirstWithTag(tree, tag, r.value)
    decreases |tree|
  {
    if |tree| == 0 then None
    else if tree[0].tag == tag then Some(0)
    else match FindFirst(tree[1..], tag)
      case None =>
        assert forall i | 1 <= i < |tree| :: tree[i] == tree[1..][i - 1];
        None
      case Some(k) => Some(k + 1)
  }

  /** The promotion step: with no `h1` anywhere, the first `p` is renamed `h1`. Exactly that
      element changes, and only its tag; a tree that already has an `h1`, or has no `p`, is
      returned unchanged. */
  function PromoteFirstParagraph(tree: Tree): (r: Tree)
    ensures |r| == |tree|
    ensures HasTag(tree, H1) ==> r == tree
    ensures !HasTag(tree, Paragraph) ==> r == tree
    ensures !HasTag(tree, H1) ==>
              forall i | 0 <= i < |tree| ::
                r[i] == if IsFirstWithTag(tree, Paragraph, i) then tree[i].(tag := H1) else tree[i]
  {
    if HasTag(tree, H1) then tree
    else match FindFirst(tree, Paragraph)
      case None => tree
      case Some(k) => tree[k := tree[k].(tag := H1)]
  }

  /** After promotion the tree has an `h1` exactly when it had an `h1` or a `p` before. */
  lemma PromoteYieldsHeading(tree: Tree)
    ensures HasTag(PromoteFirstParagraph(tree), H1) <==> HasTag(tree, H1) || HasTag(tree, Paragraph)
  {
    var r := PromoteFirstParagraph(tree);
    if !HasTag(tree, H1) && HasTag(tree, Paragraph) {
      var k := FindFirst(tree, Paragraph).value;
      assert r[k].tag == H1;
    }
  }

  /** Case-insensitive comparison of one character with a letter of the title word, the way
      Python's regular expressions compare when told to ignore case. A character matches when
      its simple lower-case form is the letter; besides the ASCII capitals, that lets the capital
      I with dot (U+0130) match 'i'. The dotless i (U+0131) matches 'i' too, through the extra
      case equivalences the regular-expression engine adds. */
  predicate MatchesLetterIgnoringCase(c: char, letter: char)
  {
    || AsciiLower(c) == letter
    || (letter == 'i' && (c == '\U{130}' || c == '\U{131}'))
  }

  const TitleWord: string := "title"

  predicate StartsWithTitleWord(s: string)
  {
    |s| >= |TitleWord| && forall i | 0 <= i < |TitleWord| :: MatchesLetterIgnoringCase(s[i], TitleWord[i])
  }

  /** The placeholder-title pattern matches at the start of `s`: the word "title" in any case,
      any run of whitespace, then a digit. Only the start is anchored, so whatever follows the
      first digit is ignored. */
  predicate IsTitleText(s: string)
  {
    && StartsWithTitleWord(s)
    && var rest := s[|TitleWord|..];
       var n := LeadingSpaces(rest);
       n < |rest| && IsDigit(rest[n])
  }

  /** The placeholder-title test read as the pattern: the title word, a (possibly empty) run of
      whitespace, then a digit. */
  lemma TitleTextIff(s: string)
    ensures IsTitleText(s) <==>
              StartsWithTitleWord(s) && exists k | |TitleWord| <= k < |s| :: AllSpace(s[|TitleWord|..k]) && IsDigit(s[k])
  {
    if IsTitleText(s) {
      TitleTextHasDigit(s);
    }
    if StartsWithTitleWord(s) && exists k | |TitleWord| <= k < |s| :: AllSpace(s[|TitleWord|..k]) && IsDigit(s[k]) {
      var k :| |TitleWord| <= k < |s| && AllSpace(s[|TitleWord|..k]) && IsDigit(s[k]);
      DigitMakesTitleText(s, k);
    }
  }

  lemma TitleTextHasDigit(s: string)
    requires IsTitleText(s)
    ensures exists k | |TitleWord| <= k < |s| :: AllSpace(s[|TitleWord|..k]) && IsDigit(s[k])
  {
    var rest := s[|TitleWord|..];
    var n := LeadingSpaces(rest);
    assert s[|TitleWord|..|TitleWord| + n] == rest[..n];
    assert AllSpace(s[|TitleWord|..|TitleWord| + n]) && IsDigit(s[|TitleWord| + n]);
  }

  lemma DigitMakesTitleText(s: string, k: nat)
    requires StartsWithTitleWord(s)
    requires |TitleWord| <= k < |s| && AllSpace(s[|TitleWord|..k]) && IsDigit(s[k])
    ensures IsTitleText(s)
  {
    var rest := s[|TitleWord|..];
    var spaces, digits := rest[..k - |TitleWord|], rest[k - |TitleWord|..];
    assert spaces == s[|TitleWord|..k] && digits[0] == s[k];
    assert rest == spaces + digits;
    LeadingSpacesOf(spaces, digits);
  }

  /** Placeholder titles: any case, optional whitespace, and anything after the first digit. */
  lemma TitleMatchExamples()
    ensures IsTitleText("Title 2 — Overview")
    ensures IsTitleText("title7")
  {
    SpacedDigitTitleExample();
    assert StartsWithTitleWord("title7");
    DigitMakesTitleText("title7", |TitleWord|);
  }

  lemma SpacedDigitTitleExample()
    ensures IsTitleText("Title 2 — Overview")
  {
    var s := "Title 2 — Overview";
    assert StartsWithTitleWord(s);
    assert AllSpace(s[|TitleWord|..|TitleWord| + 1]) by { assert s[|TitleWord|..|TitleWord| + 1] == [' ']; }
    DigitMakesTitleText(s, |TitleWord| + 1);
  }

  /** Not placeholder titles: a letter instead of a digit, text before the title word, or no
      digit at all. */
  lemma TitleMismatchExamples()
    ensures !IsTitleText("Titled Document")
    ensures !IsTitleText("My Title 1")
    ensures !IsTitleText("Title")
  {
    var a := "Titled Document";
    assert LeadingSpaces(a[|TitleWord|..]) == 0;
    var b := "My Title 1";
    assert !MatchesLetterIgnoringCase(b[0], TitleWord[0]);
  }

  /** An `h1` whose stripped text is a placeholder title. */
  predicate IsPlaceholderTitle(e: Element)
  {
    e.tag == H1 && IsTitleText(GetText(e))
  }

  predicate SurvivesStripping(e: Element)
  {
    !IsPlaceholderTitle(e)
  }

  /** The stripping step: every placeholder-title `h1` is removed, so none is left. */
  function StripTitles(tree: Tree): (r: Tree)
    ensures |r| <= |tree|
    ensures forall i | 0 <= i < |r| :: !IsPlaceholderTitle(r[i])
  {
    var r := Seqs.Filter(tree, SurvivesStripping);
    Seqs.FilterCounts(tree, SurvivesStripping);
    Seqs.FilterShrinks(tree, SurvivesStripping);
    assert forall i | 0 <= i < |r| :: r[i] in r;
    r
  }

  /** Stripping removes exactly the placeholder titles: an element survives if and only if
      it is not one, it survives as often as it occurs (so no element other than an `h1` is
      ever removed), and the survivors keep their relative order. */
  lemma StripTitlesRemovesExactlyPlaceholders(tree: Tree)
    ensures forall e :: e in StripTitles(tree) <==> e in tree && !IsPlaceholderTitle(e)
    ensures forall e :: multiset(StripTitles(tree))[e] == if IsPlaceholderTitle(e) then 0 else multiset(tree)[e]
    ensures forall e: Element | e.tag != H1 :: multiset(StripTitles(tree))[e] == multiset(tree)[e]
    ensures Seqs.IsSubsequence(StripTitles(tree), tree)
  {
    Seqs.FilterCounts(tree, SurvivesStripping);
    Seqs.FilterMembership(tree, SurvivesStripping);
    Seqs.FilterIsSubsequence(tree, SurvivesStripping);
  }

  /** Stripping works element by element from the front. */
  lemma StripTitlesCons(tree: Tree)
    requires |tree| > 0
    ensures StripTitles(tree) == (if SurvivesStripping(tree[0]) then [tree[0]] else []) + StripTitles(tree[1..])
  {
  }

  /** Promotion followed by stripping, in the order the converter runs them. */
  function NormalizeHeadings(tree: Tree): (r: Tree)
    ensures forall i | 0 <= i < |r| :: !IsPlaceholderTitle(r[i])
    ensures HasTag(tree, H1) ==> r == StripTitles(tree)
  {
    StripTitles(PromoteFirstParagraph(tree))
  }

  /** A tree without `h1` is left alone by stripping. */
  lemma StripWithoutHeading(tree: Tree)
    requires !HasTag(tree, H1)
    ensures StripTitles(tree) == tree
  {
    Seqs.FilterKeepsAll(tree, SurvivesStripping);
  }

  /** Stripping runs after promotion, so a placeholder first paragraph in a tree without `h1`
      is promoted and then removed: the result is the tree without that paragraph, and it has
      no `h1` at all. */
  lemma PromotedPlaceholderIsRemoved(tree: Tree, k: nat)
    requires !HasTag(tree, H1)
    requires IsFirstWithTag(tree, Paragraph, k)
    requires IsTitleText(GetText(tree[k]))
    ensures NormalizeHeadings(tree) == tree[..k] + tree[k + 1..]
    ensures !HasTag(NormalizeHeadings(tree), H1)
  {
    var promoted := PromoteFirstParagraph(tree);
    var before, after := tree[..k], tree[k + 1..];
    assert promoted == before + [promoted[k]] + after;
    assert forall i | 0 <= i < |before| :: before[i] == tree[i];
    assert forall i | 0 <= i < |after| :: after[i] == tree[k + 1 + i];
    FilterDropsOnePlaceholder(before, promoted[k], after);
    assert NormalizeHeadings(tree) == Seqs.Filter(promoted, SurvivesStripping);
  }

  /** Stripping a tree whose only `h1` is one placeholder title drops just that element. */
  lemma FilterDropsOnePlaceholder(before: Tree, x: Element, after: Tree)
    requires !HasTag(before, H1) && !HasTag(after, H1)
    requires IsPlaceholderTitle(x)
    ensures Seqs.Filter(before + [x] + after, SurvivesStripping) == before + after
    ensures !HasTag(before + after, H1)
  {
    assert Seqs.Filter(before + [x], SurvivesStripping) == before by {
      Seqs.FilterConcat(before, [x], SurvivesStripping);
      Seqs.FilterKeepsAll(before, SurvivesStripping);
      assert Seqs.Filter([x], SurvivesStripping) == [];
    }
    assert Seqs.Filter(after, SurvivesStripping) == after by {
      Seqs.FilterKeepsAll(after, SurvivesStripping);
    }
    Seqs.FilterConcat(before + [x], after, SurvivesStripping);
    NoTagInConcat(before, after, H1);
  }

  lemma NoTagInConcat(a: Tree, b: Tree, tag: string)
    requires !HasTag(a, tag) && !HasTag(b, tag)
    ensures !HasTag(a + b, tag)
  {
    var joined := a + b;
    forall i | 0 <= i < |joined|
      ensures joined[i].tag != tag
    {
      if i >= |a| {
        assert joined[i] == b[i - |a|];
      }
    }
  }

  /** The concrete case: a heading-less document whose only paragraph reads like a placeholder
      title, followed by an image, is reduced to the image. */
  lemma PlaceholderOnlyParagraphExample(fragments: seq<string>, image: Element)
    requires IsTitleText(JoinStripped(fragments))
    requires image.tag == Img
    ensures NormalizeHeadings([Element(Paragraph, fragments, None), image]) == [image]
  {
    var tree := [Element(Paragraph, fragments, None), image];
    assert !HasTag(tree, H1) by {
      assert forall i | 0 <= i < |tree| :: tree[i].tag in {Paragraph, Img};
    }
    assert IsFirstWithTag(tree, Paragraph, 0);
    PromotedPlaceholderIsRemoved(tree, 0);
    assert tree[1..] == [image];
  }

  /** The text of a single fragment is that fragment stripped. */
  lemma JoinStrippedSingle(f: string)
    ensures JoinStripped([f]) == Strip(f)
  {
    assert [f][1..] == [];
  }

  /** The text of fragments laid end to end is the texts of the two runs laid end to end; with
      JoinStrippedSingle this says the text is each fragment stripped, in order. */
  lemma {:induction false} JoinStrippedConcat(a: seq<string>, b: seq<string>)
    ensures JoinStripped(a + b) == JoinStripped(a) + JoinStripped(b)
    decreases |a|
  {
    var ab := a + b;
    if |a| > 0 {
      assert ab[0] == a[0] && ab[1..] == a[1..] + b;
      JoinStrippedConcat(a[1..], b);
      assert JoinStripped(ab) == Strip(a[0]) + JoinStripped(a[1..] + b);
      assert JoinStripped(a) == Strip(a[0]) + JoinStripped(a[1..]);
    } else {
      assert ab == b;
    }
  }

  /** " Title 1 " in a paragraph reads as the placeholder "Title 1". */
  lemma SpacedTitleExample()
    ensures JoinStripped([" Title 1 "]) == "Title 1"
    ensures IsTitleText("Title 1")
  {
    JoinStrippedSingle(" Title 1 ");
    StripSpacedTitle();
    TitleOneIsTitle();
  }

  lemma StripSpacedTitle()
    ensures Strip(" Title 1 ") == "Title 1"
  {
    assert " Title 1 " == " " + "Title 1" + " ";
    StripSurrounded(" ", "Title 1", " ");
  }

  lemma TitleOneIsTitle()
    ensures IsTitleText("Title 1")
  {
    assert LeadingSpaces("Title 1"[|TitleWord|..]) == 1 by { assert "Title 1"[|TitleWord|..][1..][0] == '1'; }
  }
}
