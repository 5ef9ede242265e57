/** File-name logic: the upload allow-list `allowed_file` of main.py, and the `.docx` filter and
    output-name rule of the bulk driver in conversion/googleDocToHTMLBulk.py. Paths use '/' as
    separator, as `os.path` does on POSIX. */
module FileNames {
  import opened Wrappers
  import opened Text
  import Seqs

  const DocxSuffix: string := ".docx"
  const HtmlSuffix: string := ".html"

  /** `allowed_file`: the name holds a '.', and the text after the last '.', lower-cased, is
      "docx" (the only entry of ALLOWED_EXTENSIONS). */
  predicate AllowedFile(filename: string)
  {
    && '.' in filename
    && match LastIndex(filename, '.')
       case None => false
       case Some(i) => Lower(filename[i + 1..]) == "docx"
  }

  /** `allowed_file` accepts a name exactly when its lower-cased form ends with ".docx". */
  lemma AllowedFileIffLowerEndsWithDocx(filename: string)
    ensures AllowedFile(filename) <==> EndsWith(Lower(filename), DocxSuffix)
    ensures '.' !in filename ==> !AllowedFile(filename)
  {
    if AllowedFile(filename) {
      AllowedEndsWithDocx(filename);
    }
    if EndsWith(Lower(filename), DocxSuffix) {
      EndsWithDocxAllowed(filename);
    }
  }

  /** AllowedFile once the last '.' is known. */
  lemma AllowedFileAt(filename: string, i: nat)
    requires LastIndex(filename, '.') == Some(i)
    ensures AllowedFile(filename) <==> Lower(filename[i + 1..]) == "docx"
  {
  }

  lemma AllowedEndsWithDocx(filename: string)
    requires AllowedFile(filename)
    ensures EndsWith(Lower(filename), DocxSuffix)
  {
    var i := LastIndex(filename, '.').value;
    AllowedFileAt(filename, i);
    DotThenDocx(filename, i);
  }

  /** A '.' followed by a last extension that lower-cases to "docx" ends the lower-cased name
      with ".docx". */
  lemma DotThenDocx(filename: string, i: nat)
    requires i < |filename| && filename[i] == '.'
    requires Lower(filename[i + 1..]) == "docx"
    ensures EndsWith(Lower(filename), DocxSuffix)
  {
    var ext := filename[i + 1..];
    assert filename[i..] == ['.'] + ext;
    LowerSuffix(filename, i);
    LowerCons('.', ext);
    assert Lower(filename)[i..] == ['.'] + "docx";
  }

  lemma EndsWithDocxAllowed(filename: string)
    requires EndsWith(Lower(filename), DocxSuffix)
    ensures AllowedFile(filename)
  {
    var dot := |filename| - |DocxSuffix|;
    DocxTailShape(filename);
    LastIndexAt(filename, '.', dot);
    AllowedFileAt(filename, dot);
  }

  /** A name whose lower-cased form ends with ".docx" has its '.' where that suffix starts, no
      '.' after it, and an extension that lower-cases to "docx". */
  lemma DocxTailShape(filename: string)
    requires EndsWith(Lower(filename), DocxSuffix)
    ensures filename[|filename| - |DocxSuffix|] == '.'
    ensures '.' !in filename[|filename| - |DocxSuffix| + 1..]
    ensures Lower(filename[|filename| - |DocxSuffix| + 1..]) == "docx"
  {
    var dot := |filename| - |DocxSuffix|;
    assert Lower(filename)[dot] == AsciiLower(filename[dot]) == '.' by {
      assert Lower(filename)[dot..][0] == DocxSuffix[0];
    }
    DocxExtension(filename);
    LowerKeepsAbsentDot(filename[dot + 1..], "docx");
  }

  lemma DocxExtension(filename: string)
    requires EndsWith(Lower(filename), DocxSuffix)
    ensures Lower(filename[|filename| - |DocxSuffix| + 1..]) == "docx"
  {
    var dot := |filename| - |DocxSuffix|;
    LowerSuffix(filename, dot + 1);
    assert Lower(filename)[dot + 1..] == Lower(filename)[dot..][1..];
  }

  /** A text whose lower-cased form holds no '.' holds none either. */
  lemma LowerKeepsAbsentDot(s: string, lowered: string)
    requires Lower(s) == lowered && '.' !in lowered
    ensures '.' !in s
  {
    forall k | 0 <= k < |s|
      ensures s[k] != '.'
    {
      assert lowered[k] == AsciiLower(s[k]);
    }
  }

  /** Accepted upload names: the extension test looks only behind the last '.' and ignores
      case. */
  lemma AllowedFileExamples()
    ensures AllowedFile("a.tar.docx")
    ensures AllowedFile("Report.DOCX")
  {
    DocxListingIsAllowed("a.tar.docx");
    UpperCaseDocxIsNotListed("Report.DOCX");
  }

  /** Rejected upload names: no '.' at all, or something other than "docx" behind the last
      one. */
  lemma RejectedFileExamples()
    ensures !AllowedFile("report")
    ensures !AllowedFile("a.docx.zip")
    ensures !AllowedFile("a.docx.")
  {
    RejectedAfterLastDot("a.docx.zip", 6);
    RejectedAfterLastDot("a.docx.", 6);
  }

  /** A name whose text behind its last '.' is not as long as "docx" is rejected. */
  lemma RejectedAfterLastDot(filename: string, i: nat)
    requires i < |filename| && filename[i] == '.' && '.' !in filename[i + 1..]
    requires |filename| - i - 1 != |DocxSuffix| - 1
    ensures !AllowedFile(filename)
  {
    LastIndexAt(filename, '.', i);
    AllowedFileAt(filename, i);
  }

  /** The bulk driver's test on a listed name: it ends in ".docx", compared case-sensitively. */
  predicate IsDocxListing(name: string)
  {
    EndsWith(name, DocxSuffix)
  }

  /** Every name the bulk driver converts passes the upload allow-list. */
  lemma DocxListingIsAllowed(name: string)
    requires IsDocxListing(name)
    ensures AllowedFile(name)
  {
    var dot := |name| - |DocxSuffix|;
    var low := Lower(name);
    forall k | 0 <= k < |DocxSuffix|
      ensures low[dot..][k] == DocxSuffix[k]
    {
      assert name[dot..][k] == DocxSuffix[k];
    }
    assert low[dot..] == DocxSuffix;
    EndsWithDocxAllowed(name);
  }

  /** The converse fails: a name ending in ".DOCX" is accepted on upload and then skipped by the
      conversion. */
  lemma UpperCaseDocxIsNotListed(name: string)
    requires EndsWith(name, ".DOCX")
    ensures AllowedFile(name)
    ensures !IsDocxListing(name)
  {
    var dot := |name| - |DocxSuffix|;
    var low := Lower(name);
    assert name[dot..] == ".DOCX";
    forall k | 0 <= k < |DocxSuffix|
      ensures low[dot..][k] == DocxSuffix[k]
    {
      assert low[dot + k] == AsciiLower(".DOCX"[k]);
    }
    assert low[dot..] == DocxSuffix;
    EndsWithDocxAllowed(name);
    assert name[dot..][1] != DocxSuffix[1];
  }

  /** The names the bulk driver converts, in listing order; each ends in ".docx". */
  function SelectDocx(listing: seq<string>): (r: seq<string>)
    ensures forall i | 0 <= i < |r| :: IsDocxListing(r[i])
  {
    var r := Seqs.Filter(listing, IsDocxListing);
    Seqs.FilterCounts(listing, IsDocxListing);
    assert forall i | 0 <= i < |r| :: r[i] in r;
    r
  }

  /** The selection of a non-empty listing, one name at a time. */
  lemma SelectDocxCons(listing: seq<string>)
    requires |listing| > 0
    ensures SelectDocx(listing) ==
            (if IsDocxListing(listing[0]) then [listing[0]] else []) + SelectDocx(listing[1..])
  {
    assert SelectDocx(listing) == Seqs.Filter(listing, IsDocxListing);
    assert SelectDocx(listing[1..]) == Seqs.Filter(listing[1..], IsDocxListing);
  }

  /** The bulk driver picks exactly the listed names ending in ".docx", as often as they are
      listed, in listing order. */
  lemma SelectDocxExactly(listing: seq<string>)
    ensures forall name :: name in SelectDocx(listing) <==> name in listing && IsDocxListing(name)
    ensures forall name :: multiset(SelectDocx(listing))[name] == if IsDocxListing(name) then multiset(listing)[name] else 0
    ensures Seqs.IsSubsequence(SelectDocx(listing), listing)
  {
    Seqs.FilterCounts(listing, IsDocxListing);
    Seqs.FilterMembership(listing, IsDocxListing);
    Seqs.FilterIsSubsequence(listing, IsDocxListing);
  }

  /** `os.path.join` of a folder and a relative `name`. */
  function JoinPath(folder: string, name: string): string
  {
    if |folder| == 0 || EndsWith(folder, "/") then folder + name else folder + "/" + name
  }

  /** `os.path.basename`: the text after the last '/'. */
  function Basename(path: string): (r: string)
    ensures '/' !in r
    ensures EndsWith(path, r)
  {
    match LastIndex(path, '/')
    case None => path
    case Some(i) => path[i + 1..]
  }

  /** The root that `os.path.splitext` gives for a name without '/': the text before the last '.', unless
      only dots precede that '.', in which case there is no extension (".docx" keeps its name). */
  function StripExtension(name: string): string
  {
    match LastIndex(name, '.')
    case None => name
    case Some(d) => if exists j | 0 <= j < d :: name[j] != '.' then name[..d] else name
  }

  /** The output file name: the base name without its last extension, plus ".html". */
  function OutputName(path: string): (r: string)
    ensures EndsWith(r, HtmlSuffix)
    ensures '/' !in r
  {
    var root := StripExtension(Basename(path));
    assert '/' !in root;
    root + HtmlSuffix
  }

  /** The listing name comes back out of the joined path. */
  lemma BasenameOfJoin(folder: string, name: string)
    requires '/' !in name
    ensures Basename(JoinPath(folder, name)) == name
  {
    if |folder| == 0 {
    } else if EndsWith(folder, "/") {
      var a := folder[..|folder| - 1];
      assert folder == a + ['/'];
      assert JoinPath(folder, name) == a + ['/'] + name;
      LastIndexBefore(a, '/', name);
    } else {
      assert JoinPath(folder, name) == folder + ['/'] + name;
      LastIndexBefore(folder, '/', name);
    }
  }

  /** `splitext` takes ".docx" off "<stem>.docx" when the stem holds a character other than '.'. */
  lemma StripDocxExtension(stem: string)
    requires exists j | 0 <= j < |stem| :: stem[j] != '.'
    ensures StripExtension(stem + DocxSuffix) == stem
  {
    var name := stem + DocxSuffix;
    assert name == stem + ['.'] + "docx";
    LastIndexBefore(stem, '.', "docx");
    var j :| 0 <= j < |stem| && stem[j] != '.';
    assert name[j] != '.';
    assert name[..|stem|] == stem;
  }

  /** `splitext` sees no extension in "<stem>.docx" when the stem is dots only. */
  lemma KeepDotsOnlyName(stem: string)
    requires forall j | 0 <= j < |stem| :: stem[j] == '.'
    ensures StripExtension(stem + DocxSuffix) == stem + DocxSuffix
  {
    var name := stem + DocxSuffix;
    assert name == stem + ['.'] + "docx";
    LastIndexBefore(stem, '.', "docx");
    assert forall j | 0 <= j < |stem| :: name[j] == stem[j];
  }

  lemma DocxNameHasNoSlash(stem: string)
    requires '/' !in stem
    ensures '/' !in stem + DocxSuffix
  {
    var name := stem + DocxSuffix;
    forall j | 0 <= j < |name|
      ensures name[j] != '/'
    {
      if j >= |stem| {
        assert name[j] == DocxSuffix[j - |stem|];
      } else {
        assert name[j] == stem[j];
      }
    }
  }

  /** A listed "<stem>.docx" is written as "<stem>.html" when the stem holds a character other
      than '.', e.g. "report.docx" as "report.html". */
  lemma OutputNameOfDocx(folder: string, stem: string)
    requires '/' !in stem
    requires exists j | 0 <= j < |stem| :: stem[j] != '.'
    ensures OutputName(JoinPath(folder, stem + DocxSuffix)) == stem + HtmlSuffix
  {
    DocxNameHasNoSlash(stem);
    BasenameOfJoin(folder, stem + DocxSuffix);
    StripDocxExtension(stem);
  }

  /** "dir/report.docx" is written as "report.html". */
  lemma OutputNameExample()
    ensures OutputName("dir/report.docx") == "report" + HtmlSuffix
  {
    BasenameExample();
    StripExtensionExample();
  }

  lemma BasenameExample()
    ensures Basename("dir/report.docx") == "report.docx"
  {
    LastIndexAt("dir/report.docx", '/', 3);
  }

  lemma StripExtensionExample()
    ensures StripExtension("report.docx") == "report"
  {
    LastIndexAt("report.docx", '.', 6);
    assert "report.docx"[0] != '.';
  }

  /** When only dots precede the extension, `splitext` sees no extension at all: ".docx" is
      written as ".docx.html". */
  lemma OutputNameOfDotsOnlyStem(folder: string, stem: string)
    requires forall j | 0 <= j < |stem| :: stem[j] == '.'
    ensures OutputName(JoinPath(folder, stem + DocxSuffix)) == stem + DocxSuffix + HtmlSuffix
  {
    assert '/' !in stem by {
      forall j | 0 <= j < |stem|
        ensures stem[j] != '/'
      {
      }
    }
    DocxNameHasNoSlash(stem);
    BasenameOfJoin(folder, stem + DocxSuffix);
    KeepDotsOnlyName(stem);
  }

  /** Distinct listed names with an ordinary stem get distinct output names. */
  lemma OutputNameInjective(folder: string, stem1: string, stem2: string)
    requires '/' !in stem1 && '/' !in stem2
    requires exists j | 0 <= j < |stem1| :: stem1[j] != '.'
    requires exists j | 0 <= j < |stem2| :: stem2[j] != '.'
    requires OutputName(JoinPath(folder, stem1 + DocxSuffix)) == OutputName(JoinPath(folder, stem2 + DocxSuffix))
    ensures stem1 == stem2
  {
    OutputNameOfDocx(folder, stem1);
    OutputNameOfDocx(folder, stem2);
    assert stem1 == (stem1 + HtmlSuffix)[..|stem1|];
    assert stem2 == (stem2 + HtmlSuffix)[..|stem2|];
  }

  /** Two different listed names can share an output file: ".docx" and ".docx.docx" are
      both written as ".docx.html", so the second conversion overwrites the first. */
  lemma OutputNamesCanCollide(folder: string)
    ensures DocxSuffix != DocxSuffix + DocxSuffix
    ensures OutputName(JoinPath(folder, DocxSuffix)) == OutputName(JoinPath(folder, DocxSuffix + DocxSuffix))
  {
    var empty: string := [];
    assert empty + DocxSuffix == DocxSuffix;
    OutputNameOfDotsOnlyStem(folder, empty);
    assert DocxSuffix[1] != '.';
    OutputNameOfDocx(folder, DocxSuffix);
  }
}
