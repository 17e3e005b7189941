/** How an attachment gets its remote name: the target directory built from
    the task's path and tags, the extension and its allow-list, the template
    output turned into a safe file name, and the one-shot `-dup` rewrite on
    collision. */
module Naming {
  import opened Types
  import opened Strings
  import opened Paths
  import WebDav

  /** The values the naming template can refer to. `origExt` carries the
      leading dot. */
  datatype NamingContext = NamingContext(
    origBase: string,
    origExt: string,
    subject: string,
    uid: Uid,
    date: string,
    dateTime: string)

  /** The naming template: whether it parses, and what executing it on a
      context yields (None for an execution error). */
  datatype Template = Template(parses: bool, execute: NamingContext -> Option<string>)

  /** The name given to an attachment that declares no filename. */
  const Placeholder: string := "attachment.bin"

  // ---------------------------------------------------------------- directory

  /** A tag as a directory element: whitespace-trimmed, then slash-trimmed. */
  function TagElement(tag: string): string {
    TrimSlashes(TrimSpace(tag))
  }

  /** Each tag as a directory element, in order. */
  function TagElements(tags: seq<string>): (r: seq<string>)
    ensures |r| == |tags|
    ensures forall i :: 0 <= i < |tags| ==> r[i] == TagElement(tags[i])
  {
    if tags == [] then [] else [TagElement(tags[0])] + TagElements(tags[1..])
  }

  /** The loop that appends each non-empty tag element to `parts`. */
  function AppendTags(parts: seq<string>, tags: seq<string>): seq<string>
    decreases |tags|
  {
    if tags == [] then parts
    else
      var v := TagElement(tags[0]);
      AppendTags(if v != [] then parts + [v] else parts, tags[1..])
  }

  /** The candidate elements: the slash-trimmed path, then each tag element. */
  function Candidates(path: string, tags: seq<string>): seq<string> {
    [TrimSlashes(path)] + TagElements(tags)
  }

  /** A string that neither starts nor ends with a slash (and is non-empty). */
  predicate Inner(s: string) {
    s != [] && s[0] != '/' && s[|s| - 1] != '/'
  }

  /** The relative upload directory: the slash-trimmed path followed by each
      tag trimmed of spaces and then of slashes, empty ones dropped, joined
      with `/`. It never starts or ends with a slash, so the final trim of
      the source never changes it, and it is empty exactly when every
      candidate element is. */
  function RelDir(path: string, tags: seq<string>): (r: string)
    ensures r == [] || Inner(r)
    ensures r == JoinWith(WebDav.NonEmpty(Candidates(path, tags)), '/')
    ensures r == [] <==> forall i :: 0 <= i < |Candidates(path, tags)| ==> Candidates(path, tags)[i] == []
  {
    var v := TrimSlashes(path);
    var parts := AppendTags(if v != [] then [v] else [], tags);
    var joined := JoinWith(parts, '/');
    AppendTagsFilters(if v != [] then [v] else [], tags);
    assert Candidates(path, tags)[1..] == TagElements(tags);
    assert WebDav.NonEmpty(Candidates(path, tags)) == (if v != [] then [v] else []) + WebDav.NonEmpty(TagElements(tags));
    InnerElements(path, tags);
    JoinInner(parts);
    NonEmptyEmpty(Candidates(path, tags));
    if joined != [] then TrimFuncNoop(joined, IsSlash); TrimSlashes(joined) else TrimSlashes(joined)
  }

  /** Each kept candidate element is inner. */
  lemma InnerElements(path: string, tags: seq<string>)
    ensures forall i :: 0 <= i < |WebDav.NonEmpty(Candidates(path, tags))| ==> Inner(WebDav.NonEmpty(Candidates(path, tags))[i])
  {
    var c := Candidates(path, tags);
    forall x | x in c ensures x == [] || Inner(x) {
      var i :| 0 <= i < |c| && c[i] == x;
      if i == 0 {
        TrimmedInner(path);
      } else {
        TrimmedInner(TrimSpace(tags[i - 1]));
      }
    }
  }

  /** A slash-trimmed string is empty or inner. */
  lemma TrimmedInner(s: string)
    ensures TrimSlashes(s) == [] || Inner(TrimSlashes(s))
  {
  }

  /** The appending loop keeps exactly the non-empty tag elements, in order. */
  lemma {:induction false} AppendTagsFilters(parts: seq<string>, tags: seq<string>)
    ensures AppendTags(parts, tags) == parts + WebDav.NonEmpty(TagElements(tags))
    decreases |tags|
  {
    if tags != [] {
      var v := TagElement(tags[0]);
      var all := TagElements(tags);
      assert all == [v] + TagElements(tags[1..]);
      assert all[1..] == TagElements(tags[1..]);
      AppendTagsFilters(if v != [] then parts + [v] else parts, tags[1..]);
    } else {
      assert parts + [] == parts;
    }
  }

  /** The non-empty filter of a list is empty exactly when every element is. */
  lemma {:induction false} NonEmptyEmpty(xs: seq<string>)
    ensures WebDav.NonEmpty(xs) == [] <==> forall i :: 0 <= i < |xs| ==> xs[i] == []
  {
    if xs != [] {
      NonEmptyEmpty(xs[1..]);
      assert forall i :: 1 <= i < |xs| ==> xs[i] == xs[1..][i - 1];
    }
  }

  /** A join of inner elements is empty or inner. */
  lemma {:induction false} JoinInner(parts: seq<string>)
    requires forall i :: 0 <= i < |parts| ==> Inner(parts[i])
    ensures parts == [] <==> JoinWith(parts, '/') == []
    ensures parts != [] ==> Inner(JoinWith(parts, '/'))
  {
    if |parts| > 1 {
      JoinInner(parts[1..]);
      var rest := JoinWith(parts[1..], '/');
      assert JoinWith(parts, '/') == parts[0] + ['/'] + rest;
      assert JoinWith(parts, '/')[0] == parts[0][0];
    } else if |parts| == 1 {
      assert JoinWith(parts, '/') == parts[0];
    }
  }

  // ---------------------------------------------------------------- extension

  /** The attachment's filename, or the placeholder when it declares none. */
  function AttachmentName(filename: Option<string>): (r: string)
    ensures r != []
    ensures filename.Some? && filename.value != [] ==> r == filename.value
    ensures filename.None? || filename.value == [] ==> r == Placeholder
  {
    if filename.Some? && filename.value != [] then filename.value else Placeholder
  }

  /** The extension: the lower-cased text after the last `.` of the final
      `/`-separated element, without the dot; empty when there is no dot. */
  function ExtensionOf(name: string): (r: string)
    ensures '/' !in r && '.' !in r && IsLowered(r)
    ensures Ext(name) == [] ==> r == []
    ensures Ext(name) != [] ==> r == ToLower(Ext(name)[1..])
  {
    var e := Ext(name);
    LowerAfterDot(e);
    if e == [] then TrimPrefix(ToLower(e), ".")
    else
      LowerKeeps(e[1..], '/');
      LowerKeeps(e[1..], '.');
      TrimPrefix(ToLower(e), ".")
  }

  /** Lower-casing commutes with dropping a leading dot. */
  lemma LowerAfterDot(e: string)
    requires e == [] || e[0] == '.'
    ensures e == [] ==> TrimPrefix(ToLower(e), ".") == []
    ensures e != [] ==> TrimPrefix(ToLower(e), ".") == ToLower(e[1..])
  {
    if e != [] {
      var l := ToLower(e);
      assert l[..1] == ".";
      assert l[1..] == ToLower(e[1..]);
    }
  }

  /** Lower-casing never introduces a character that is not a lower-case
      letter. */
  lemma LowerKeeps(s: string, c: char)
    requires !('a' <= c <= 'z')
    ensures c !in s ==> c !in ToLower(s)
  {
    if c in ToLower(s) {
      var k :| 0 <= k < |s| && ToLower(s)[k] == c;
      assert Lower(s[k]) == c;
    }
  }

  /** An allow-list entry in normal form: trimmed, one leading dot removed,
      lower-cased. */
  function NormalExtension(entry: string): string {
    ToLower(TrimPrefix(TrimSpace(entry), "."))
  }

  /** The allow-list: the normal forms of the configured entries, blanks
      dropped. */
  function AllowedExtensions(entries: seq<string>): (r: set<string>)
    ensures forall e :: e in r <==> e != [] && exists x :: x in entries && NormalExtension(x) == e
  {
    if entries == [] then {}
    else
      var e := NormalExtension(entries[0]);
      var rest := AllowedExtensions(entries[1..]);
      assert forall x :: x in entries <==> x == entries[0] || x in entries[1..];
      if e != [] then {e} + rest else rest
  }

  /** The extension filter: an empty allow-list admits everything. */
  predicate Admits(allowed: set<string>, ext: string) {
    |allowed| == 0 || ext in allowed
  }

  /** The `OrigBase` of the naming context: the name with `.` + extension
      removed from its end, compared case-sensitively against the
      lower-cased extension. */
  function OrigBase(name: string, ext: string): (r: string)
    ensures HasSuffix(name, "." + ext) ==> name == r + "." + ext
    ensures !HasSuffix(name, "." + ext) ==> r == name
  {
    TrimSuffix(name, "." + ext)
  }

  // ---------------------------------------------------------------- file name

  /** Template output trimmed of whitespace with every `/` and `\` turned
      into `-`. */
  function Sanitized(out: string): (r: string)
    ensures '/' !in r && '\\' !in r
    ensures |r| == |TrimSpace(out)|
    ensures forall k :: 0 <= k < |r| ==>
              r[k] == (if TrimSpace(out)[k] == '/' || TrimSpace(out)[k] == '\\' then '-' else TrimSpace(out)[k])
  {
    ReplaceChar(ReplaceChar(TrimSpace(out), '/', '-'), '\\', '-')
  }

  /** The file name: the sanitised output, with `.` + extension appended when
      it has no extension of its own and the attachment has one. The name
      never contains a slash, and it carries an extension whenever the
      attachment had one. */
  function FileName(out: string, ext: string): (r: string)
    ensures '/' !in ext ==> '/' !in r
    ensures HasPrefix(r, Sanitized(out))
    ensures Ext(Sanitized(out)) != [] || ext == [] ==> r == Sanitized(out)
    ensures Ext(Sanitized(out)) == [] && ext != [] ==>
              |r| == |Sanitized(out)| + 1 + |ext| && r[|Sanitized(out)|] == '.' && HasSuffix(r, ext)
    ensures '/' !in ext && '.' !in ext && ext != [] ==> Ext(r) != []
    ensures '/' !in ext && '.' !in ext && Ext(Sanitized(out)) == [] && ext != [] ==> Ext(r) == "." + ext
  {
    var s := Sanitized(out);
    if Ext(s) == [] && ext != [] then
      ExtOfDotted(s, ext);
      s + "." + ext
    else s
  }

  /** A dot followed by a dot- and slash-free tail is the extension. */
  lemma ExtOfDotted(s: string, e: string)
    ensures '/' !in e && '.' !in e ==> Ext(s + "." + e) == "." + e
  {
    if '/' !in e && '.' !in e {
      var p := s + "." + e;
      assert p == s + ("." + e);
      assert forall k :: 0 <= k < |e| ==> !IsDotOrSlash(e[k]) by {
        assert forall k :: 0 <= k < |e| ==> e[k] in e;
      }
      LastIndexWhereSkipsTail(".", e, IsDotOrSlash);
      assert LastIndexWhere(".", IsDotOrSlash) == 0;
      LastIndexWhereAppend(s, "." + e, IsDotOrSlash);
      assert p[|s|..] == "." + e;
    }
  }

  /** Template output made only of whitespace passes the cycle's emptiness
      test (which looks at the untrimmed output) but, for an attachment
      without extension, leaves an empty file name, so the candidate is the
      upload directory itself. The existence probe then finds that
      directory, and the collision rewrite sends the payload to
      `docs/docs-dup.`, a name built from the directory's own. */
  lemma BlankOutputTargetsDirectory()
    ensures FileName(" ", "") == ""
    ensures TrimSlashes(Candidate("docs", FileName(" ", ""))) == "docs"
    ensures DupTarget(Candidate("docs", FileName(" ", "")), "") == "docs/docs-dup."
  {
    assert IsSpace(" "[0]);
    assert TrimSpace(" ") == [];
    assert Sanitized(" ") == [];
    TrimFuncNoop("docs", IsSlash);
    assert WebDav.Join("docs", "") == "docs/";
    TrimDocsSlash();
    DocsDupTarget();
  }

  lemma DocsDupTarget()
    ensures DupTarget("docs/", "") == "docs/docs-dup."
  {
    DocsBase();
    DocsStem();
    DocsDir();
    DupUnfold("docs/", "");
    DocsJoin();
  }

  lemma DupUnfold(target: string, ext: string)
    ensures DupTarget(target, ext) == WebDav.Join(Dir(target), Stem(Base(target)) + "-dup." + ext)
  {
  }

  lemma DocsStem()
    ensures Stem("docs") == "docs"
  {
    DocsExt();
  }

  lemma DocsJoin()
    ensures WebDav.Join("docs", "docs" + "-dup." + "") == "docs/docs-dup."
  {
    var f := "docs" + "-dup." + "";
    DocsSpelled();
    WebDav.JoinPlain("docs", f);
  }

  lemma DocsSpelled()
    ensures "docs" + "-dup." + "" == "docs-dup."
    ensures "docs" + "/" + "docs-dup." == "docs/docs-dup."
  {
  }

  lemma DocsBase()
    ensures Base("docs/") == "docs"
  {
    TrimDocsSlash();
    assert "docs/"[..|"docs/"| - 1] == "docs";
    LastIndexWhereNone("docs", IsSlash);
    assert "docs"[0..] == "docs";
  }

  lemma DocsExt()
    ensures Ext("docs") == ""
  {
    LastIndexWhereNone("docs", IsSlash);
    assert forall k :: 0 <= k < 4 ==> "docs"[k] != '.';
  }

  lemma DocsDir()
    ensures Dir("docs/") == "docs"
  {
    DirOfLastElement("docs", "");
    assert "docs" + "/" + "" == "docs/";
    CleanTrailingSlash("docs");
    SplitNoSeparator("docs", '/');
    assert PlainElement(Split("docs", '/')[0]);
    CleanPlainPath("docs");
  }

  lemma TrimDocsSlash()
    ensures TrimSlashes("docs/") == "docs"
  {
    assert LeadingCount("docs/", IsSlash) == 0;
    assert "docs/"[..4] == "docs";
    assert TrailingCount("docs", IsSlash) == 0;
    assert TrailingCount("docs/", IsSlash) == 1;
  }

  /** Where the attachment is uploaded unless it collides: the name itself
      without an upload directory, otherwise the directory, `/` and the name. */
  function Candidate(relDir: string, name: string): (r: string)
    ensures relDir == [] ==> r == name
    ensures Inner(relDir) && '/' !in name ==> r == relDir + "/" + name
  {
    if relDir == [] then name
    else if Inner(relDir) && '/' !in name then
      WebDav.JoinPlain(relDir, name);
      WebDav.Join(relDir, name)
    else WebDav.Join(relDir, name)
  }

  /** A name without its extension. */
  function Stem(name: string): string {
    TrimSuffix(name, Ext(name))
  }

  /** The collision rewrite: same directory (`path.Dir`), base name without
      its extension, then `-dup.` and the attachment's extension. The
      rewrite is relative and, for a slash-free extension, ends with `-dup.`
      and that extension. */
  function DupTarget(target: string, ext: string): (r: string)
    ensures r == [] || r[0] != '/'
    ensures '/' !in ext ==> HasSuffix(r, "-dup." + ext)
  {
    var bn := Base(target);
    var stem := TrimSuffix(bn, Ext(bn));
    DupTail(Dir(target), stem, ext);
    WebDav.Join(Dir(target), stem + "-dup." + ext)
  }

  /** A join onto `head-dup.ext` ends with `-dup.ext` when `ext` is slash-free. */
  lemma DupTail(dir: string, head: string, ext: string)
    ensures '/' !in ext ==> HasSuffix(WebDav.Join(dir, head + "-dup." + ext), "-dup." + ext)
  {
    if '/' !in ext {
      var tail := "-dup." + ext;
      assert '/' !in tail by {
        assert forall k :: 0 <= k < |tail| ==> tail[k] == (if k < 5 then "-dup."[k] else ext[k - 5]);
      }
      assert head + "-dup." + ext == head + tail;
      JoinKeepsTail(dir, head, tail);
    }
  }

  /** A join ends with any non-empty slash-free tail of its file. */
  lemma JoinKeepsTail(dir: string, head: string, tail: string)
    requires tail != [] && '/' !in tail
    ensures HasSuffix(WebDav.Join(dir, head + tail), tail)
  {
    TrimSlashesKeepsTail(head, tail);
    var t := TrimSlashes(head + tail);
    var r := WebDav.Join(dir, head + tail);
    assert r[|r| - |tail|..] == t[|t| - |tail|..];
  }

  /** On a candidate built from an upload directory and a slash-free name,
      the rewrite lands in the cleaned directory (`.` when there is none),
      its base name is the stem of the name followed by `-dup.` and the
      extension, and it differs from the candidate. */
  lemma DupShape(relDir: string, name: string, ext: string)
    requires relDir == [] || Inner(relDir)
    requires name != [] && '/' !in name && '/' !in ext
    ensures DupTarget(Candidate(relDir, name), ext)
         == WebDav.Join(if relDir == [] then "." else Clean(relDir), Stem(name) + "-dup." + ext)
    ensures Base(DupTarget(Candidate(relDir, name), ext)) == Stem(name) + "-dup." + ext
    ensures DupTarget(Candidate(relDir, name), ext) != Candidate(relDir, name)
  {
    var t := Candidate(relDir, name);
    CandidateShape(relDir, name);
    var f := Stem(name) + "-dup." + ext;
    DupName(name, ext);
    WebDav.JoinSplitsBack(Dir(t), f);
  }

  /** A candidate splits back into the cleaned upload directory and the name. */
  lemma CandidateShape(relDir: string, name: string)
    requires relDir == [] || Inner(relDir)
    requires name != [] && '/' !in name
    ensures Base(Candidate(relDir, name)) == name
    ensures Dir(Candidate(relDir, name)) == if relDir == [] then "." else Clean(relDir)
  {
    if relDir == [] {
      BaseOfElement(name);
      DirOfLastElement([], name);
    } else {
      TrimFuncNoop(relDir, IsSlash);
      WebDav.JoinSplitsBack(relDir, name);
    }
  }

  /** The `-dup` name is slash-free and differs from the name it replaces. */
  lemma DupName(name: string, ext: string)
    requires '/' !in name && '/' !in ext
    ensures var f := Stem(name) + "-dup." + ext;
            f != [] && '/' !in f && f != name
  {
    StemOf(name);
    DupNameOf(Stem(name), name, ext);
  }

  /** The same, for any slash-free stem that is either at least as long as
      the name or followed in it by a dot. */
  lemma DupNameOf(st: string, name: string, ext: string)
    requires '/' !in st && '/' !in ext
    requires |st| < |name| ==> name[|st|] == '.'
    ensures var f := st + "-dup." + ext;
            f != [] && '/' !in f && f != name
  {
    var tail := "-dup." + ext;
    assert '/' !in tail by {
      assert forall k :: 0 <= k < |tail| ==> tail[k] == (if k < 5 then "-dup."[k] else ext[k - 5]);
    }
    assert st + "-dup." + ext == st + tail;
    var f := st + tail;
    assert f[|st|] == '-';
    if |st| < |name| {
      assert f[|st|] != name[|st|];
    } else {
      assert |f| > |name|;
    }
  }

  lemma StemOf(name: string)
    requires '/' !in name
    ensures '/' !in Stem(name)
    ensures |Stem(name)| < |name| ==> name[|Stem(name)|] == '.'
  {
    var st := Stem(name);
    assert name == st + Ext(name);
    assert forall k :: 0 <= k < |st| ==> st[k] == name[k];
    assert |name| > |st| ==> name[|st|] == Ext(name)[0];
  }

  /** A name keeps its original case in `OrigBase` when its extension is
      upper-case: `Scan.PDF` has extension `pdf` and base `Scan.PDF`. */
  lemma UpperCaseExtensionKeepsBase()
    ensures ExtensionOf("Scan.PDF") == "pdf"
    ensures OrigBase("Scan.PDF", ExtensionOf("Scan.PDF")) == "Scan.PDF"
  {
    ScanExt();
    assert ToLower("PDF") == "pdf";
    assert !HasSuffix("Scan.PDF", ".pdf") by {
      assert "Scan.PDF"[5] != ".pdf"[1];
    }
  }

  lemma ScanExt()
    ensures Ext("Scan.PDF") == ".PDF"
  {
    var e := "PDF";
    assert e[0] == 'P' && e[1] == 'D' && e[2] == 'F' && |e| == 3;
    assert '/' !in e && '.' !in e;
    ExtOfDotted("Scan", e);
    assert "Scan" + "." + e == "Scan.PDF";
  }

  /** With no upload directory a colliding `invoice.pdf`-style name is
      rewritten under `./`, the cleaned form of the empty directory. */
  lemma DupWithoutDirectory()
    ensures DupTarget("invoice.pdf", "pdf") == "./invoice-dup.pdf"
  {
    InvoiceExt();
    InvoiceBase();
    InvoiceDir();
    InvoiceStem();
    assert DupTarget("invoice.pdf", "pdf") == WebDav.Join(".", "invoice" + "-dup." + "pdf");
    InvoiceJoin();
  }

  lemma InvoiceStem()
    ensures TrimSuffix("invoice.pdf", ".pdf") == "invoice"
  {
  }

  lemma InvoiceJoin()
    ensures WebDav.Join(".", "invoice" + "-dup." + "pdf") == "./invoice-dup.pdf"
  {
    var f := "invoice" + "-dup." + "pdf";
    InvoiceSpelled();
    WebDav.JoinPlain(".", f);
  }

  lemma InvoiceSpelled()
    ensures "invoice" + "-dup." + "pdf" == "invoice-dup.pdf"
    ensures "." + "/" + "invoice-dup.pdf" == "./invoice-dup.pdf"
  {
  }

  lemma InvoiceExt()
    ensures Ext("invoice.pdf") == ".pdf"
  {
    var e := "pdf";
    assert e[0] == 'p' && e[1] == 'd' && e[2] == 'f' && |e| == 3;
    assert '/' !in e && '.' !in e;
    ExtOfDotted("invoice", e);
    assert "invoice" + "." + e == "invoice.pdf";
  }

  lemma InvoiceBase()
    ensures Base("invoice.pdf") == "invoice.pdf"
  {
    assert '/' !in "invoice.pdf";
    BaseOfElement("invoice.pdf");
  }

  lemma InvoiceDir()
    ensures Dir("invoice.pdf") == "."
  {
    DirOfLastElement([], "invoice.pdf");
  }
}
