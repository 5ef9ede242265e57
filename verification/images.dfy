/** Image embedding of conversion/googleDocToHTMLBulk.py: `convert_image_to_base64` turns a
    decoded picture into a data URI, `extract_images_from_docx` maps every image relationship's
    target reference to that URI and rewrites the `src` of each `img` found in the map. */
module Images {
  import opened Wrappers
  import opened Text
  import opened Markup
  import Headings
  import Seqs

  /** A picture as the imaging library reports it once decoded: its format name ("PNG",
      "JPEG", ...) and the base64 text of its re-encoded bytes, taken as given. */
  datatype Picture = Picture(format: string, payload: string)

  /** A relationship of the document part: its target reference, whether the target lies
      outside the package, and the picture behind it. An external target (a hyperlink, whose
      reference is its URL, or a linked rather than embedded picture) has no part whose bytes
      could be read, so reading them raises whatever `picture` says. For an internal target,
      `picture` is None when the imaging library cannot decode the target's bytes. */
  datatype Relationship = Relationship(targetRef: string, isExternal: bool, picture: Option<Picture>)

  const DataPrefix: string := "data:image/"
  const Base64Marker: string := ";base64,"

  /** `convert_image_to_base64`: the data URI of a picture, made of the prefix "data:image/",
      the lower-cased format name, the marker ";base64," and the payload. */
  function DataUri(pic: Picture): (r: string)
    ensures StartsWith(r, DataPrefix)
  {
    DataPrefix + Lower(pic.format) + Base64Marker + pic.payload
  }

  /** Reads a data URI back into its format and payload; the inverse of DataUri. */
  function ParseDataUri(s: string): Option<(string, string)>
  {
    if !StartsWith(s, DataPrefix) then None
    else
      var rest := s[|DataPrefix|..];
      match FirstIndex(rest, ';')
      case None => None
      case Some(i) =>
        var tail := rest[i..];
        if StartsWith(tail, Base64Marker) then Some((rest[..i], tail[|Base64Marker|..])) else None
  }

  /** A data URI gives back the lower-cased format and the payload it was built from, as long
      as the format name holds no ';' (no image format name does). */
  lemma DataUriRoundTrip(pic: Picture)
    requires ';' !in pic.format
    ensures ParseDataUri(DataUri(pic)) == Some((Lower(pic.format), pic.payload))
  {
    var fmt := Lower(pic.format);
    forall i | 0 <= i < |fmt|
      ensures fmt[i] != ';'
    {
      assert pic.format[i] != ';';
    }
    ParseBuiltDataUri(fmt, pic.payload);
  }

  lemma ParseBuiltDataUri(fmt: string, payload: string)
    requires ';' !in fmt
    ensures ParseDataUri(DataPrefix + fmt + Base64Marker + payload) == Some((fmt, payload))
  {
    var s := DataPrefix + fmt + Base64Marker + payload;
    var rest := fmt + (Base64Marker + payload);
    assert StartsWith(s, DataPrefix) && s[|DataPrefix|..] == rest by {
      assert s == DataPrefix + rest;
      PrefixSplit(DataPrefix, rest);
    }
    assert FirstIndex(rest, ';') == Some(|fmt|) by {
      assert rest == fmt + [';'] + (Base64Marker[1..] + payload);
      FirstIndexBehind(fmt, ';', Base64Marker[1..] + payload);
    }
    PrefixSplit(fmt, Base64Marker + payload);
    ParseDataUriOf(s, fmt, payload);
  }

  /** ParseDataUri on a text laid out as prefix, format, ';', marker remainder, payload. */
  lemma ParseDataUriOf(s: string, fmt: string, payload: string)
    requires StartsWith(s, DataPrefix)
    requires FirstIndex(s[|DataPrefix|..], ';') == Some(|fmt|)
    requires s[|DataPrefix|..][..|fmt|] == fmt
    requires s[|DataPrefix|..][|fmt|..] == Base64Marker + payload
    ensures ParseDataUri(s) == Some((fmt, payload))
  {
    PrefixSplit(Base64Marker, payload);
  }

  /** `a + b` starts with `a`, and `b` is what follows it. */
  lemma PrefixSplit(a: string, b: string)
    ensures StartsWith(a + b, a)
    ensures (a + b)[..|a|] == a && (a + b)[|a|..] == b
  {
  }

  /** A target reference that contains the text "image" somewhere. */
  predicate IsImageRef(ref: string)
  {
    Occurs(ref, "image")
  }

  /** An image relationship whose picture cannot be loaded: its target is external, so its
      bytes cannot be read, or the imaging library cannot decode them. */
  predicate Unloadable(rel: Relationship)
  {
    IsImageRef(rel.targetRef) && (rel.isExternal || rel.picture.None?)
  }

  /** Position `i` holds the last relationship with target reference `ref`. */
  predicate IsLastWithRef(rels: seq<Relationship>, ref: string, i: int)
  {
    0 <= i < |rels| && rels[i].targetRef == ref && forall j | i < j < |rels| :: rels[j].targetRef != ref
  }

  /** The map built by `extract_images_from_docx`, with the relationships in iteration order.
      Loading an image relationship whose bytes cannot be read or decoded raises, which ends
      the whole conversion: the result is then the target reference of the first such
      relationship.
      Every key is an image reference and every value a data URI. */
  function ImageRelations(rels: seq<Relationship>): (r: Result<map<string, string>, string>)
    ensures r.Success? ==> forall ref | ref in r.value :: IsImageRef(ref) && StartsWith(r.value[ref], DataPrefix)
    ensures r.Failure? ==> IsImageRef(r.error)
    decreases |rels|
  {
    if |rels| == 0 then Success(map[])
    else
      var rel := rels[|rels| - 1];
      match ImageRelations(rels[..|rels| - 1])
      case Failure(ref) => Failure(ref)
      case Success(m) =>
        if !IsImageRef(rel.targetRef) then Success(m)
        else if rel.isExternal then Failure(rel.targetRef)
        else match rel.picture
          case None => Failure(rel.targetRef)
          case Some(pic) => Success(m[rel.targetRef := DataUri(pic)])
  }

  /** The conversion fails exactly when some image relationship cannot be read or decoded,
      and then it reports the first one. */
  lemma {:induction false} ImageRelationsFailsOnFirstUnloadable(rels: seq<Relationship>)
    ensures ImageRelations(rels).Failure? <==> exists i | 0 <= i < |rels| :: Unloadable(rels[i])
    ensures ImageRelations(rels).Failure? ==>
              exists i | 0 <= i < |rels| ::
                && Unloadable(rels[i])
                && ImageRelations(rels).error == rels[i].targetRef
                && forall j | 0 <= j < i :: !Unloadable(rels[j])
    decreases |rels|
  {
    if |rels| > 0 {
      var init := rels[..|rels| - 1];
      var last := |rels| - 1;
      ImageRelationsFailsOnFirstUnloadable(init);
      assert forall i | 0 <= i < |init| :: init[i] == rels[i];
      if ImageRelations(init).Failure? {
        var i :| 0 <= i < |init| && Unloadable(init[i]) && ImageRelations(init).error == init[i].targetRef
                 && forall j | 0 <= j < i :: !Unloadable(init[j]);
        assert Unloadable(rels[i]);
      } else if Unloadable(rels[last]) {
        assert forall j | 0 <= j < last :: !Unloadable(rels[j]);
      } else {
        forall i | 0 <= i < |rels|
          ensures !Unloadable(rels[i])
        {
          if i < last {
            assert !Unloadable(init[i]);
          }
        }
      }
    }
  }

  /** An external target whose reference contains "image" fails the conversion, whatever
      picture it names: a hyperlink to ".../image.png" is such a target. */
  lemma ExternalImageRefFails(rels: seq<Relationship>, k: nat)
    requires k < |rels| && rels[k].isExternal && IsImageRef(rels[k].targetRef)
    ensures ImageRelations(rels).Failure?
  {
    ImageRelationsFailsOnFirstUnloadable(rels);
    assert Unloadable(rels[k]);
  }

  /** A document whose only relationship is a hyperlink to "https://example.com/image.png"
      fails, though a picture could be decoded. */
  lemma HyperlinkToImageFails(pic: Picture)
    ensures ImageRelations([Relationship("https://example.com/image.png", true, Some(pic))]).Failure?
  {
    var url := "https://example.com/image.png";
    assert OccursAt(url, "image", 20);
    ExternalImageRefFails([Relationship(url, true, Some(pic))], 0);
  }

  /** On success the keys are exactly the target references that contain "image". */
  lemma ImageRelationsKeys(rels: seq<Relationship>)
    requires ImageRelations(rels).Success?
    ensures ImageRelations(rels).value.Keys ==
              set i | 0 <= i < |rels| && IsImageRef(rels[i].targetRef) :: rels[i].targetRef
  {
    var keys := ImageRelations(rels).value.Keys;
    var refs := set i | 0 <= i < |rels| && IsImageRef(rels[i].targetRef) :: rels[i].targetRef;
    forall ref | ref in refs
      ensures ref in keys
    {
      var k :| 0 <= k < |rels| && IsImageRef(rels[k].targetRef) && rels[k].targetRef == ref;
      ImageRelationsHasKey(rels, k);
    }
    forall ref | ref in keys
      ensures ref in refs
    {
      ImageRelationsLastWins(rels);
      var i :| IsLastWithRef(rels, ref, i) && !rels[i].isExternal && rels[i].picture.Some?
               && ImageRelations(rels).value[ref] == DataUri(rels[i].picture.value);
      assert IsImageRef(rels[i].targetRef);
    }
  }

  /** The target reference of every image relationship is a key of a successful map. */
  lemma {:induction false} ImageRelationsHasKey(rels: seq<Relationship>, k: nat)
    requires ImageRelations(rels).Success?
    requires k < |rels| && IsImageRef(rels[k].targetRef)
    ensures rels[k].targetRef in ImageRelations(rels).value
    decreases |rels|
  {
    var init := rels[..|rels| - 1];
    if k < |rels| - 1 {
      assert init[k] == rels[k];
      ImageRelationsHasKey(init, k);
    }
  }

  /** On success each key maps to the data URI of the last relationship with that target
      reference: a later relationship overwrites an earlier one. */
  lemma ImageRelationsLastWins(rels: seq<Relationship>)
    requires ImageRelations(rels).Success?
    ensures forall ref | ref in ImageRelations(rels).value ::
              exists i :: IsLastWithRef(rels, ref, i) && !rels[i].isExternal && rels[i].picture.Some?
                          && ImageRelations(rels).value[ref] == DataUri(rels[i].picture.value)
  {
    forall ref | ref in ImageRelations(rels).value
      ensures exists i :: IsLastWithRef(rels, ref, i) && !rels[i].isExternal && rels[i].picture.Some?
                          && ImageRelations(rels).value[ref] == DataUri(rels[i].picture.value)
    {
      var i := LastWinsFor(rels, ref);
    }
  }

  /** The relationship whose data URI a key maps to: the last one with that reference. */
  lemma {:induction false} LastWinsFor(rels: seq<Relationship>, ref: string) returns (i: nat)
    requires ImageRelations(rels).Success? && ref in ImageRelations(rels).value
    ensures IsLastWithRef(rels, ref, i) && !rels[i].isExternal && rels[i].picture.Some?
    ensures ImageRelations(rels).value[ref] == DataUri(rels[i].picture.value)
    decreases |rels|
  {
    var init, last := rels[..|rels| - 1], |rels| - 1;
    var rel := rels[last];
    if IsImageRef(rel.targetRef) && ref == rel.targetRef {
      i := last;
    } else {
      i := LastWinsFor(init, ref);
      assert rels[i] == init[i];
      forall j | i < j < |rels|
        ensures rels[j].targetRef != ref
      {
        if j < last {
          assert rels[j] == init[j];
        }
      }
    }
  }

  /** The rewrite of one element: an `img` whose `src` is a key of the map takes the mapped
      value as its new `src`. */
  function SubstituteSrc(e: Element, uris: map<string, string>): Element
  {
    if e.tag == Img && e.src.Some? && e.src.value in uris then e.(src := Some(uris[e.src.value])) else e
  }

  /** The substitution loop of `extract_images_from_docx`. Element by element: tag and text
      never change; an `img` whose `src` is a key gets that key's value; every other element,
      including an `img` without `src` or with a `src` that is not a key, is left as it was. */
  function SubstituteImages(tree: Tree, uris: map<string, string>): (r: Tree)
    ensures |r| == |tree|
    ensures forall i | 0 <= i < |tree| :: r[i].tag == tree[i].tag && r[i].fragments == tree[i].fragments
    ensures forall i | 0 <= i < |tree| && tree[i].tag == Img && tree[i].src.Some? && tree[i].src.value in uris ::
              r[i].src == Some(uris[tree[i].src.value])
    ensures forall i | 0 <= i < |tree| && !(tree[i].tag == Img && tree[i].src.Some? && tree[i].src.value in uris) ::
              r[i] == tree[i]
  {
    seq(|tree|, i requires 0 <= i < |tree| => SubstituteSrc(tree[i], uris))
  }

  /** Once the relationship map is built, every `img` that pointed at an image relationship
      carries a data URI. */
  lemma EmbeddedImagesAreDataUris(tree: Tree, rels: seq<Relationship>, i: nat)
    requires ImageRelations(rels).Success?
    requires i < |tree| && tree[i].tag == Img && tree[i].src.Some?
    requires exists k | 0 <= k < |rels| :: rels[k].targetRef == tree[i].src.value && IsImageRef(rels[k].targetRef)
    ensures SubstituteImages(tree, ImageRelations(rels).value)[i].src.Some?
    ensures StartsWith(SubstituteImages(tree, ImageRelations(rels).value)[i].src.value, DataPrefix)
  {
    var k :| 0 <= k < |rels| && rels[k].targetRef == tree[i].src.value && IsImageRef(rels[k].targetRef);
    ImageRelationsHasKey(rels, k);
  }

  /** Substitution touches neither tags nor text, so it commutes with title stripping: the
      converter could embed images before or after stripping with the same result. */
  lemma {:induction false} SubstituteCommutesWithStrip(tree: Tree, uris: map<string, string>)
    ensures Headings.StripTitles(SubstituteImages(tree, uris)) == SubstituteImages(Headings.StripTitles(tree), uris)
    decreases |tree|
  {
    if |tree| == 0 {
      assert SubstituteImages(tree, uris) == [];
    } else {
      var x, t := tree[0], tree[1..];
      var sub := SubstituteImages(tree, uris);
      SubstituteCons(tree, uris);
      SubstituteKeepsSurvival(x, uris);
      SubstituteCommutesWithStrip(t, uris);
      Headings.StripTitlesCons(tree);
      Headings.StripTitlesCons(sub);
      assert sub[0] == SubstituteSrc(x, uris) && sub[1..] == SubstituteImages(t, uris);
      if Headings.SurvivesStripping(x) {
        var kept := Headings.StripTitles(t);
        SubstituteCons([x] + kept, uris);
        assert ([x] + kept)[1..] == kept;
      }
    }
  }

  /** Substitution works element by element from the front. */
  lemma SubstituteCons(tree: Tree, uris: map<string, string>)
    requires |tree| > 0
    ensures SubstituteImages(tree, uris) == [SubstituteSrc(tree[0], uris)] + SubstituteImages(tree[1..], uris)
  {
  }

  /** An element survives title stripping after substitution exactly when it did before. */
  lemma SubstituteKeepsSurvival(e: Element, uris: map<string, string>)
    ensures Headings.SurvivesStripping(SubstituteSrc(e, uris)) == Headings.SurvivesStripping(e)
  {
    assert Headings.GetText(SubstituteSrc(e, uris)) == Headings.GetText(e);
  }
}
