/**
 * The parts of `pathlib.PurePosixPath` that the core consults: the final
 * component (`name`), its extension (`suffix`), and joining with `/`.
 */
module Paths {
  import opened Text

  type Path = string

  /** The index of the last occurrence of `c` in `s`, or -1 (`str.rfind`). */
  function RFind(s: string, c: char): (r: int)
    ensures -1 <= r < |s|
    ensures r >= 0 ==> s[r] == c
    ensures forall k :: r < k < |s| ==> s[k] != c
    decreases |s|
  {
    if s == [] then -1
    else if s[|s| - 1] == c then |s| - 1
    else RFind(s[..|s| - 1], c)
  }

  /** `Path(p).name`: the last component of `p`, where trailing slashes and
      `.` components do not count as components. */
  function Name(p: Path): (r: string)
    ensures forall k :: 0 <= k < |r| ==> r[k] != '/'
    ensures r != "."
    decreases |p|
  {
    if p == [] then ""
    else if p[|p| - 1] == '/' then Name(p[..|p| - 1])
    else
      var start := RFind(p, '/') + 1;
      if p[start..] == "." then Name(p[..start]) else p[start..]
  }

  /** The extension of a file name: from its last dot on, provided that dot
      is neither the first nor the last character; otherwise "". */
  function NameSuffix(name: string): string
  {
    var i := RFind(name, '.');
    if 0 < i < |name| - 1 then name[i..] else ""
  }

  /** `Path(p).suffix`. */
  function Suffix(p: Path): string
  {
    NameSuffix(Name(p))
  }

  /** The routing test `Path(p).suffix.lower() == '.pdf'`. */
  predicate IsPdf(p: Path) {
    ToLower(Suffix(p)) == ".pdf"
  }

  /** A file name has the extension `.pdf`, in any letter case, exactly when
      it has at least one character before a final `.pdf`. */
  lemma PdfSuffixByEnding(n: string)
    ensures ToLower(NameSuffix(n)) == ".pdf" <==> |n| >= 5 && ToLower(n[|n| - 4..]) == ".pdf"
  {
    if ToLower(NameSuffix(n)) == ".pdf" {
      var i := RFind(n, '.');
      assert |n[i..]| == 4;
      assert n[|n| - 4..] == n[i..];
    }
    if |n| >= 5 && ToLower(n[|n| - 4..]) == ".pdf" {
      PdfEndingIsSuffix(n);
    }
  }

  lemma PdfEndingIsSuffix(n: string)
    requires |n| >= 5 && ToLower(n[|n| - 4..]) == ".pdf"
    ensures RFind(n, '.') == |n| - 4
  {
    var tail := n[|n| - 4..];
    assert LowerChar(tail[0]) == '.';
    assert n[|n| - 4] == '.' by { assert tail[0] == n[|n| - 4]; }
    forall k | |n| - 3 <= k < |n| ensures n[k] != '.' {
      assert tail[k - (|n| - 4)] == n[k];
      assert LowerChar(tail[k - (|n| - 4)]) != '.';
    }
  }

  /** A path is routed as a PDF exactly when its name has at least one
      character before a final `.pdf`, in any letter case. */
  lemma IsPdfByName(p: Path)
    ensures IsPdf(p) <==> |Name(p)| >= 5 && ToLower(Name(p)[|Name(p)| - 4..]) == ".pdf"
  {
    var n := Name(p);
    assert Suffix(p) == NameSuffix(n);
    PdfSuffixByEnding(n);
  }

  /** `Path(dir) / name` for a relative `name`. The empty path and `.` both
      denote the current directory, whose child is the bare `name`. */
  function Child(dir: Path, name: string): Path {
    if dir == "" || dir == "." then name else dir + "/" + name
  }

  /** Two children of one directory are the same path only when their names
      are the same. */
  lemma ChildInjective(dir: Path, a: string, b: string)
    requires Child(dir, a) == Child(dir, b)
    ensures a == b
  {
    if dir != "" && dir != "." {
      var k := |dir| + 1;
      assert a == Child(dir, a)[k..];
      assert b == Child(dir, b)[k..];
    }
  }

  /** A path without any slash is its own name (unless it is "." or ""). */
  lemma NameOfPlain(p: Path)
    requires p != [] && p != "."
    requires forall k :: 0 <= k < |p| ==> p[k] != '/'
    ensures Name(p) == p
  {
    assert RFind(p, '/') == -1;
  }

  /** The name of `dir/n`, for a plain component `n`, is `n`: the name is
      the final component, whatever the directory part. */
  lemma NameOfChild(dir: Path, n: string)
    requires n != [] && n != "."
    requires forall k :: 0 <= k < |n| ==> n[k] != '/'
    ensures Name(Child(dir, n)) == n
  {
    if dir == "" || dir == "." {
      NameOfPlain(n);
      return;
    }
    var p := Child(dir, n);
    assert p[|dir|] == '/';
    forall k | |dir| < k < |p| ensures p[k] != '/' {
      assert p[k] == n[k - |dir| - 1];
    }
    assert RFind(p, '/') == |dir|;
    assert p[|dir| + 1..] == n;
  }

  /** A trailing slash does not change the name. */
  lemma NameIgnoresTrailingSlash(p: Path)
    ensures Name(p + "/") == Name(p)
  {
    assert (p + "/")[..|p|] == p;
  }

  /** A trailing `/.` component does not change the name. */
  lemma NameIgnoresTrailingDot(p: Path)
    ensures Name(p + "/.") == Name(p)
  {
    var q := p + "/.";
    assert RFind(q, '/') == |p|;
    assert q[|p| + 1..] == ".";
    assert q[..|p| + 1] == p + "/";
    NameIgnoresTrailingSlash(p);
  }

  lemma LowerPdfEnding()
    ensures ToLower(".pdf") == ".pdf" && ToLower(".PDF") == ".pdf"
  {
    assert ".pdf"[1..] == "pdf" && "pdf"[1..] == "df" && "df"[1..] == "f";
    assert ".PDF"[1..] == "PDF" && "PDF"[1..] == "DF" && "DF"[1..] == "F";
  }

  /** `test.pdf` is routed to PDF processing. */
  lemma PdfRouteExample()
    ensures IsPdf("test.pdf")
  {
    var p := "test.pdf";
    NameOfPlain(p);
    assert p[|p| - 4..] == ".pdf";
    LowerPdfEnding();
    PdfSuffixByEnding(p);
  }

  /** The extension test ignores letter case. */
  lemma UpperCasePdfRouteExample()
    ensures IsPdf("scan.PDF")
  {
    var p := "scan.PDF";
    NameOfPlain(p);
    assert p[|p| - 4..] == ".PDF";
    LowerPdfEnding();
    PdfSuffixByEnding(p);
  }

  /** `docs/scan.PDF` is routed by its final component. */
  lemma DirectoryRouteExample()
    ensures IsPdf("docs/scan.PDF")
  {
    var n := "scan.PDF";
    assert Child("docs", n) == "docs/scan.PDF";
    NameOfChild("docs", n);
    assert n[|n| - 4..] == ".PDF";
    LowerPdfEnding();
    PdfSuffixByEnding(n);
  }

  /** `test.png` is routed to image processing. */
  lemma ImageRouteExample()
    ensures !IsPdf("test.png")
  {
    NameOfPlain("test.png");
    PdfSuffixByEnding("test.png");
  }

  /** A file called just `.pdf` has no suffix, so it is treated as an image. */
  lemma HiddenFileRouteExample()
    ensures !IsPdf(".pdf")
  {
    NameOfPlain(".pdf");
    PdfSuffixByEnding(".pdf");
  }
}
