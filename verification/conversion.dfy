/** The drivers of conversion/googleDocToHTMLBulk.py: `convert_docx_to_html` as the composition
    of the post-processing steps over one document, and `bulk_convert_docx_to_html` as the loop
    over a folder listing. The external converter, the parser/serialiser and the file system
    enter as parameters. */
module Conversion {
  import opened Wrappers
  import opened Markup
  import Headings
  import Images
  import Cleanup
  import FileNames

  /** `convert_docx_to_html` up to the file write: promote, strip titles, embed images,
      serialise (the given `serialize`), clean line breaks, delete the disruptive string.
      The document fails exactly when one of its image relationships cannot be read or decoded, and
      then reports the first such reference; otherwise the output holds no line break. */
  function ConvertDocument(tree: Tree, rels: seq<Images.Relationship>, disruptive: Option<string>,
                           serialize: Tree -> string): (r: Result<string, string>)
    ensures r.Failure? <==> exists i | 0 <= i < |rels| :: Images.Unloadable(rels[i])
    ensures r.Failure? ==> Images.IsImageRef(r.error)
    ensures r.Failure? ==>
              exists i | 0 <= i < |rels| ::
                && Images.Unloadable(rels[i])
                && r.error == rels[i].targetRef
                && forall j | 0 <= j < i :: !Images.Unloadable(rels[j])
    ensures r.Success? ==> forall i | 0 <= i < |r.value| :: r.value[i] != '\r' && r.value[i] != '\n'
  {
    Images.ImageRelationsFailsOnFirstUnloadable(rels);
    var normalized := Headings.NormalizeHeadings(tree);
    match Images.ImageRelations(rels)
    case Failure(ref) => Failure(ref)
    case Success(uris) =>
      var cleaned := Cleanup.CleanLineBreaks(serialize(Images.SubstituteImages(normalized, uris)));
      var out := Cleanup.RemoveDisruptive(cleaned, disruptive);
      assert forall i | 0 <= i < |out| :: out[i] in cleaned;
      Success(out)
  }

  /** One output file: its name in the output folder and its content. */
  datatype Written = Written(name: string, content: string)

  /** What a bulk run leaves behind: the files written, in order, and the error that ended the
      run, if one did. */
  datatype BulkOutcome<E> = BulkOutcome(written: seq<Written>, failure: Option<E>)

  /** `written` holds, in order, the output files for the first `|written|` names of
      `selected`: each name's conversion succeeded and was written under its output name. */
  ghost predicate WrittenInOrder<E>(folder: string, selected: seq<string>, written: seq<Written>,
                                    convert: string -> Result<string, E>)
  {
    && |written| <= |selected|
    && forall i | 0 <= i < |written| ::
         var path := FileNames.JoinPath(folder, selected[i]);
         convert(path).Success? && written[i] == Written(FileNames.OutputName(path), convert(path).value)
  }

  /** A successful conversion of the next name extends a run written in order. */
  lemma WrittenInOrderCons<E>(folder: string, name: string, selected: seq<string>, w: Written,
                              written: seq<Written>, convert: string -> Result<string, E>)
    requires WrittenInOrder(folder, selected, written, convert)
    requires convert(FileNames.JoinPath(folder, name)).Success?
    requires w == Written(FileNames.OutputName(FileNames.JoinPath(folder, name)), convert(FileNames.JoinPath(folder, name)).value)
    ensures WrittenInOrder(folder, [name] + selected, [w] + written, convert)
  {
    var sel := [name] + selected;
    var wr := [w] + written;
    forall i | 1 <= i < |wr|
      ensures sel[i] == selected[i - 1] && wr[i] == written[i - 1]
    {
    }
  }

  /** `bulk_convert_docx_to_html`: the listing is walked in order, names not ending in ".docx"
      are skipped, and each other name is converted by `convert` (the whole of
      `convert_docx_to_html` for that path) and written under its output name. The first error
      ends the run; the files written before it stay. */
  function BulkConvert<E>(folder: string, listing: seq<string>, convert: string -> Result<string, E>): (r: BulkOutcome<E>)
    ensures |r.written| <= |listing|
    decreases |listing|
  {
    if |listing| == 0 then BulkOutcome([], None)
    else
      var name := listing[0];
      if !FileNames.IsDocxListing(name) then BulkConvert(folder, listing[1..], convert)
      else
        var path := FileNames.JoinPath(folder, name);
        match convert(path)
        case Failure(e) => BulkOutcome([], Some(e))
        case Success(content) =>
          var rest := BulkConvert(folder, listing[1..], convert);
          BulkOutcome([Written(FileNames.OutputName(path), content)] + rest.written, rest.failure)
  }

  /** A bulk run converts the selected names in listing order: the files it writes are those
      of a prefix of the selected names, each under its output name with the content its
      conversion produced. */
  lemma {:induction false} BulkConvertWritesInOrder<E>(folder: string, listing: seq<string>, convert: string -> Result<string, E>)
    ensures WrittenInOrder(folder, FileNames.SelectDocx(listing), BulkConvert(folder, listing, convert).written, convert)
    decreases |listing|
  {
    if |listing| > 0 {
      var name := listing[0];
      var tail := listing[1..];
      var selected := FileNames.SelectDocx(listing);
      var tailSelected := FileNames.SelectDocx(tail);
      var r := BulkConvert(folder, listing, convert);
      var rest := BulkConvert(folder, tail, convert);
      BulkConvertWritesInOrder(folder, tail, convert);
      FileNames.SelectDocxCons(listing);
      if !FileNames.IsDocxListing(name) {
        assert r == rest && selected == tailSelected;
      } else {
        var path := FileNames.JoinPath(folder, name);
        assert selected == [name] + tailSelected;
        if convert(path).Success? {
          var w := Written(FileNames.OutputName(path), convert(path).value);
          assert r.written == [w] + rest.written;
          WrittenInOrderCons(folder, name, tailSelected, w, rest.written, convert);
        } else {
          assert r.written == [];
        }
      }
    }
  }

  /** A run that stopped only at an error: without one, `outcome` has a file for every name of
      `selected`; with one, the error is the failed conversion of the selected name right after
      the last file written. */
  ghost predicate EndsAtFirstError<E>(folder: string, selected: seq<string>, outcome: BulkOutcome<E>,
                                      convert: string -> Result<string, E>)
  {
    && (outcome.failure.None? ==> |outcome.written| == |selected|)
    && (outcome.failure.Some? ==>
          && |outcome.written| < |selected|
          && convert(FileNames.JoinPath(folder, selected[|outcome.written|])) == Failure(outcome.failure.value))
  }

  /** A successful conversion in front keeps a run that ends at its first error. */
  lemma EndsAtFirstErrorCons<E>(folder: string, name: string, selected: seq<string>, w: Written,
                                outcome: BulkOutcome<E>, convert: string -> Result<string, E>)
    requires EndsAtFirstError(folder, selected, outcome, convert)
    ensures EndsAtFirstError(folder, [name] + selected, BulkOutcome([w] + outcome.written, outcome.failure), convert)
  {
    if outcome.failure.Some? {
      assert ([name] + selected)[|outcome.written| + 1] == selected[|outcome.written|];
    }
  }

  /** A bulk run stops only at an error, and at the first one: without an error it has written
      a file for every selected name; with one, the error is the failed conversion of the
      selected name right after the last file written. */
  lemma {:induction false} BulkConvertStopsAtFirstError<E>(folder: string, listing: seq<string>, convert: string -> Result<string, E>)
    ensures EndsAtFirstError(folder, FileNames.SelectDocx(listing), BulkConvert(folder, listing, convert), convert)
    decreases |listing|
  {
    if |listing| > 0 {
      var name, tail := listing[0], listing[1..];
      var tailSelected := FileNames.SelectDocx(tail);
      var rest := BulkConvert(folder, tail, convert);
      BulkConvertStopsAtFirstError(folder, tail, convert);
      FileNames.SelectDocxCons(listing);
      if FileNames.IsDocxListing(name) {
        var path := FileNames.JoinPath(folder, name);
        if convert(path).Success? {
          EndsAtFirstErrorCons(folder, name, tailSelected, Written(FileNames.OutputName(path), convert(path).value), rest, convert);
        }
      }
    }
  }
}
