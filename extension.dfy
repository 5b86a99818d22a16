/**
 * Image-extension detection (`getImageExtensionFromUrl`): the extension of a
 * URL's pathname, lower-cased and without its dot, when it is one of five
 * image extensions.
 */
module ImageExtension {
  import opened Wrappers
  import opened Strings

  /** What a successful URL parse yields; only `pathname` is consulted. */
  datatype Url = Url(pathname: string, search: string, hash: string)

  /** The whitelist, in the source's order. */
  const ValidExts: seq<string> := ["jpg", "jpeg", "png", "gif", "webp"]

  /** The path without the run of '/' at its end (Node's `extname` skips them). */
  function TrimTrailingSlashes(p: string): (r: string)
    ensures |r| <= |p| && r == p[..|r|]
    ensures |r| == 0 || r[|r| - 1] != '/'
    ensures forall k | |r| <= k < |p| :: p[k] == '/'
  {
    if |p| > 0 && p[|p| - 1] == '/' then TrimTrailingSlashes(p[..|p| - 1]) else p
  }

  /** The last component of the trimmed path. */
  function BaseName(p: string): (r: string)
    ensures '/' !in r
  {
    var t := TrimTrailingSlashes(p);
    t[LastIndexOf(t, '/') + 1..]
  }

  /**
   * Node's POSIX `path.extname`: from the last '.' of the base name to its end,
   * or "" when the base name has no '.', starts with its only dot run before
   * any other character (".png"), or is "..".
   */
  function Extname(p: string): (e: string)
    ensures e == "" || e[0] == '.'
  {
    var b := BaseName(p);
    var d := LastIndexOf(b, '.');
    if d <= 0 || b == ".." then "" else b[d..]
  }

  /** A non-empty extname is the last dot of the base name and everything after it. */
  lemma ExtnameShape(p: string)
    ensures var e, b := Extname(p), BaseName(p);
      |e| <= |b| && e == b[|b| - |e|..] && (e == "" || '.' !in e[1..])
  {
  }

  /** `extname(pathname).toLowerCase().replace('.', '')`, kept only when whitelisted. */
  function ExtensionOfPath(pathname: string): (r: Option<string>)
    ensures r.Some? ==> r.value in ValidExts
  {
    var ext := RemoveFirst(Lower(Extname(pathname)), '.');
    if ext in ValidExts then Some(ext) else None
  }

  /**
   * `getImageExtensionFromUrl`: `parsed` is the outcome of `new URL(imageUrl)`,
   * None when the constructor throws.
   */
  function GetImageExtensionFromUrl(parsed: Option<Url>): (r: Option<string>)
    ensures parsed.None? ==> r.None?
    ensures r.Some? ==> r.value in ValidExts
  {
    match parsed
    case None => None
    case Some(u) => ExtensionOfPath(u.pathname)
  }

  /** A pathname `dir + stem + "." + x + trailing` whose last file name is `stem.x`. */
  ghost predicate FileNameShape(p: string, dir: string, stem: string, x: string, trailing: string) {
    && p == dir + stem + "." + x + trailing
    && (dir == "" || dir[|dir| - 1] == '/')
    && |stem| >= 1 && '/' !in stem
    && |x| >= 1 && '.' !in x && '/' !in x
    && forall k | 0 <= k < |trailing| :: trailing[k] == '/'
  }

  lemma {:induction false} LastIndexOfUnique(s: string, c: char, r: int)
    requires -1 <= r < |s|
    requires 0 <= r ==> s[r] == c
    requires forall k | r < k < |s| :: s[k] != c
    ensures LastIndexOf(s, c) == r
  {
  }

  lemma {:induction false} TrimAppendSlashes(q: string, trailing: string)
    requires q == "" || q[|q| - 1] != '/'
    requires forall k | 0 <= k < |trailing| :: trailing[k] == '/'
    ensures TrimTrailingSlashes(q + trailing) == q
  {
    if |trailing| == 0 {
      assert q + trailing == q;
    } else {
      var t' := trailing[..|trailing| - 1];
      assert (q + trailing)[..|q + trailing| - 1] == q + t';
      TrimAppendSlashes(q, t');
    }
  }

  lemma {:induction false} BaseNameOfPath(dir: string, name: string, trailing: string)
    requires dir == "" || dir[|dir| - 1] == '/'
    requires |name| >= 1 && '/' !in name
    requires forall k | 0 <= k < |trailing| :: trailing[k] == '/'
    ensures BaseName(dir + name + trailing) == name
  {
    var q := dir + name;
    assert q[|q| - 1] == name[|name| - 1];
    TrimAppendSlashes(q, trailing);
    LastIndexOfUnique(q, '/', |dir| - 1);
    assert q[|dir|..] == name;
  }

  lemma {:induction false} LastDotOfName(stem: string, x: string)
    requires |stem| >= 1 && |x| >= 1 && '.' !in x
    ensures LastIndexOf(stem + "." + x, '.') == |stem|
  {
    var name := stem + "." + x;
    forall k | |stem| < k < |name|
      ensures name[k] != '.'
    {
      assert name[k] == x[k - |stem| - 1];
    }
    LastIndexOfUnique(name, '.', |stem|);
  }

  lemma {:induction false} ExtnameFromBase(p: string, stem: string, x: string)
    requires |stem| >= 1 && |x| >= 1
    requires BaseName(p) == stem + "." + x
    requires LastIndexOf(stem + "." + x, '.') == |stem|
    ensures Extname(p) == "." + x
  {
    var b := stem + "." + x;
    assert |b| >= 3;
    assert b[|stem|..] == "." + x;
  }

  lemma {:induction false} ExtnameOfFileName(p: string, dir: string, stem: string, x: string, trailing: string)
    requires FileNameShape(p, dir, stem, x, trailing)
    ensures Extname(p) == "." + x
  {
    var name := stem + "." + x;
    assert p == dir + name + trailing;
    BaseNameOfPath(dir, name, trailing);
    LastDotOfName(stem, x);
    ExtnameFromBase(p, stem, x);
  }

  /**
   * Reference characterisation, one direction: a pathname ending in the file
   * name `stem.x` (optionally followed by slashes) yields the lower-cased `x`
   * exactly when that is whitelisted.
   */
  lemma {:induction false} ExtensionOfFileName(p: string, dir: string, stem: string, x: string, trailing: string)
    requires FileNameShape(p, dir, stem, x, trailing)
    ensures ExtensionOfPath(p) == if Lower(x) in ValidExts then Some(Lower(x)) else None
  {
    ExtnameOfFileName(p, dir, stem, x, trailing);
    ExtensionOfExtname(p, x);
  }

  lemma {:induction false} TrailingSlashes(p: string, t: string)
    requires t == TrimTrailingSlashes(p)
    ensures p == t + p[|t|..]
    ensures forall k | 0 <= k < |p[|t|..]| :: p[|t|..][k] == '/'
  {
    assert p == p[..|t|] + p[|t|..];
  }

  lemma {:induction false} DirectorySplit(t: string, j: int)
    requires j == LastIndexOf(t, '/')
    ensures t == t[..j + 1] + t[j + 1..]
    ensures t[..j + 1] == "" || t[..j + 1][j] == '/'
  {
  }

  /** Every path splits into its directory part, its base name and trailing slashes. */
  lemma {:induction false} PathSplit(p: string) returns (dir: string, b: string, trailing: string)
    ensures p == dir + b + trailing && b == BaseName(p)
    ensures dir == "" || dir[|dir| - 1] == '/'
    ensures forall k | 0 <= k < |trailing| :: trailing[k] == '/'
  {
    var t := TrimTrailingSlashes(p);
    TrailingSlashes(p, t);
    trailing := p[|t|..];
    var j := LastIndexOf(t, '/');
    DirectorySplit(t, j);
    dir := t[..j + 1];
    b := t[j + 1..];
  }

  lemma {:induction false} DotSplit(b: string, d: int) returns (stem: string, x: string)
    requires 0 < d < |b| && b[d] == '.' && '/' !in b
    requires forall k | d < k < |b| :: b[k] != '.'
    ensures b == stem + "." + x && b[d..] == "." + x
    ensures |stem| >= 1 && '.' !in x && '/' !in stem && '/' !in x
  {
    stem := b[..d];
    x := b[d + 1..];
    assert b[d..] == "." + x;
    forall k | 0 <= k < |stem|
      ensures stem[k] != '/'
    {
      assert stem[k] == b[k];
    }
    forall k | 0 <= k < |x|
      ensures x[k] != '.' && x[k] != '/'
    {
      assert x[k] == b[d + 1 + k];
    }
  }

  /** A non-empty extension splits its base name at the last dot. */
  lemma {:induction false} NameSplit(p: string) returns (stem: string, x: string)
    requires Extname(p) != ""
    ensures BaseName(p) == stem + "." + x && Extname(p) == "." + x
    ensures |stem| >= 1 && '.' !in x && '/' !in stem && '/' !in x
  {
    var b := BaseName(p);
    stem, x := DotSplit(b, LastIndexOf(b, '.'));
  }

  lemma {:induction false} ExtensionOfExtname(p: string, x: string)
    requires Extname(p) == "." + x
    ensures ExtensionOfPath(p) == if Lower(x) in ValidExts then Some(Lower(x)) else None
  {
    assert Lower("." + x) == "." + Lower(x);
  }

  lemma {:induction false} NoExtnameNoExtension(p: string)
    requires Extname(p) == ""
    ensures ExtensionOfPath(p) == None
  {
    assert Lower("") == "";
  }

  lemma {:induction false} ExtensionNeedsExtname(p: string)
    requires ExtensionOfPath(p).Some?
    ensures Extname(p) != ""
  {
    if Extname(p) == "" {
      NoExtnameNoExtension(p);
    }
  }

  lemma {:induction false} WhitelistedLength(x: string)
    requires Lower(x) in ValidExts
    ensures |x| >= 3
  {
  }

  /**
   * Reference characterisation, other direction: every extension found comes
   * from such a file name.
   */
  lemma {:induction false} ExtensionShape(p: string) returns (dir: string, stem: string, x: string, trailing: string)
    requires ExtensionOfPath(p).Some?
    ensures FileNameShape(p, dir, stem, x, trailing)
    ensures ExtensionOfPath(p) == Some(Lower(x))
  {
    var b;
    dir, b, trailing := PathSplit(p);
    ExtensionNeedsExtname(p);
    stem, x := NameSplit(p);
    ExtensionOfExtname(p, x);
    WhitelistedLength(x);
    Reassociate(dir, stem, x, trailing);
  }

  lemma {:induction false} Reassociate(dir: string, stem: string, x: string, trailing: string)
    ensures dir + (stem + "." + x) + trailing == dir + stem + "." + x + trailing
  {
  }

  lemma {:induction false} TrimLower(p: string)
    ensures TrimTrailingSlashes(Lower(p)) == Lower(TrimTrailingSlashes(p))
  {
    if |p| > 0 && p[|p| - 1] == '/' {
      assert Lower(p)[..|p| - 1] == Lower(p[..|p| - 1]);
      TrimLower(p[..|p| - 1]);
    }
  }

  lemma {:induction false} LastIndexOfLower(s: string, c: char)
    requires c == '/' || c == '.'
    ensures LastIndexOf(Lower(s), c) == LastIndexOf(s, c)
  {
    var r := LastIndexOf(s, c);
    LastIndexOfUnique(Lower(s), c, r);
  }

  lemma {:induction false} BaseNameLower(p: string)
    ensures BaseName(Lower(p)) == Lower(BaseName(p))
  {
    var t := TrimTrailingSlashes(p);
    TrimLower(p);
    LastIndexOfLower(t, '/');
    LowerSlice(t, LastIndexOf(t, '/') + 1, |t|);
  }

  lemma {:induction false} DotDotLower(b: string)
    ensures Lower(b) == ".." <==> b == ".."
  {
    if Lower(b) == ".." {
      assert |b| == 2 && Lower(b)[0] == LowerChar(b[0]) && Lower(b)[1] == LowerChar(b[1]);
      assert b == [b[0], b[1]];
    }
  }

  lemma {:induction false} ExtnameLower(p: string)
    ensures Extname(Lower(p)) == Lower(Extname(p))
  {
    BaseNameLower(p);
    var b := BaseName(p);
    LastIndexOfLower(b, '.');
    DotDotLower(b);
    var d := LastIndexOf(b, '.');
    if d <= 0 || b == ".." {
      assert Extname(Lower(p)) == "";
      assert Lower("") == "";
    } else {
      LowerSlice(b, d, |b|);
    }
  }

  /** Detection is case-insensitive: "photo.PNG" and "photo.png" give the same answer. */
  lemma {:induction false} CaseInsensitive(p: string)
    ensures ExtensionOfPath(Lower(p)) == ExtensionOfPath(p)
  {
    ExtnameLower(p);
    LowerIdempotent(Extname(p));
  }

  lemma {:induction false} ShapeInDirectory(dir: string, stem: string, x: string)
    requires dir == "" || dir[|dir| - 1] == '/'
    requires |stem| >= 1 && '/' !in stem && |x| >= 1 && '.' !in x && '/' !in x
    ensures FileNameShape(dir + stem + "." + x, dir, stem, x, "")
  {
    assert dir + stem + "." + x == dir + stem + "." + x + "";
  }

  lemma {:induction false} PhotoPng(p: string)
    requires Extname(p) == "." + "PNG"
    ensures ExtensionOfPath(p) == Some("png")
  {
    ExtensionOfExtname(p, "PNG");
    assert Lower("PNG") == "png";
  }

  lemma {:induction false} FileTxt(p: string)
    requires Extname(p) == "." + "txt"
    ensures ExtensionOfPath(p) == None
  {
    ExtensionOfExtname(p, "txt");
    assert Lower("txt") == "txt";
  }

  /**
   * "photo.PNG" in any directory is a png link, whatever the query and
   * fragment are, since only the pathname is consulted.
   */
  lemma {:induction false} PhotoPngWithQuery(dir: string, search: string, hash: string)
    requires dir == "" || dir[|dir| - 1] == '/'
    ensures GetImageExtensionFromUrl(Some(Url(dir + "photo.PNG", search, hash))) == Some("png")
  {
    ShapeInDirectory(dir, "photo", "PNG");
    assert dir + "photo" + "." + "PNG" == dir + "photo.PNG";
    ExtnameOfFileName(dir + "photo.PNG", dir, "photo", "PNG", "");
    PhotoPng(dir + "photo.PNG");
  }

  /** A text file is not an image link. */
  lemma {:induction false} TextFileRejected(dir: string)
    requires dir == "" || dir[|dir| - 1] == '/'
    ensures GetImageExtensionFromUrl(Some(Url(dir + "file.txt", "", ""))) == None
  {
    ShapeInDirectory(dir, "file", "txt");
    assert dir + "file" + "." + "txt" == dir + "file.txt";
    ExtnameOfFileName(dir + "file.txt", dir, "file", "txt", "");
    FileTxt(dir + "file.txt");
  }

  lemma {:induction false} DotFileBase(p: string)
    requires BaseName(p) == ".png"
    ensures Extname(p) == ""
  {
    LastIndexOfUnique(".png", '.', 0);
  }

  /** A dot-file has no extension, as in Node: ".png" is not an image link. */
  lemma {:induction false} DotFileRejected(dir: string)
    requires dir == "" || dir[|dir| - 1] == '/'
    ensures ExtensionOfPath(dir + ".png") == None
  {
    assert dir + ".png" == dir + ".png" + "";
    BaseNameOfPath(dir, ".png", "");
    DotFileBase(dir + ".png");
    NoExtnameNoExtension(dir + ".png");
  }
}
