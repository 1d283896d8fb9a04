/** The upload middleware for post images: destination and the `<now>-<fieldname><ext>`
    naming rule, with a model of `path.extname`. Its file filter is the profile-photo
    middleware's, `Upload.FileFilter`. */
module BlogUpload {
  import opened Wrappers
  import JsText

  /** Directory post images are written to. */
  const BlogDestination := "photo_blog"

  /** The path with its trailing `/` characters removed. */
  function StripTrailingSlashes(p: string): (r: string)
    ensures |r| <= |p| && r == p[..|r|]
    ensures r == [] || r[|r| - 1] != '/'
  {
    if p != [] && p[|p| - 1] == '/' then StripTrailingSlashes(p[..|p| - 1]) else p
  }

  /** The text after the last `/`, or all of it. */
  function AfterLastSlash(p: string): (r: string)
    ensures '/' !in r
    ensures |r| <= |p| && r == p[|p| - |r|..]
  {
    if p == [] || p[|p| - 1] == '/' then [] else AfterLastSlash(p[..|p| - 1]) + [p[|p| - 1]]
  }

  /** The last path component, as `path.basename` sees it. */
  function BaseName(p: string): string {
    AfterLastSlash(StripTrailingSlashes(p))
  }

  /** Position of the last `.` in `s`, if any. */
  function LastDot(s: string): (r: Option<nat>)
    ensures r.None? ==> '.' !in s
    ensures r.Some? ==> r.value < |s| && s[r.value] == '.' && '.' !in s[r.value + 1..]
  {
    if s == [] then None
    else if s[|s| - 1] == '.' then Some(|s| - 1)
    else
      var r := LastDot(s[..|s| - 1]);
      if r.Some? then assert s[r.value + 1..] == s[..|s| - 1][r.value + 1..] + [s[|s| - 1]]; r else r
  }

  /** `path.extname` (POSIX): from the last `.` of the last component to its end; empty
      when that component has no `.`, when its only `.` is its first character, or when
      it is `..`. */
  function ExtName(p: string): string {
    var base := BaseName(p);
    if base == ".." then ""
    else match LastDot(base)
      case None => ""
      case Some(k) => if k == 0 then "" else base[k..]
  }

  /** An extension is empty or a `.` followed by dot-free, slash-free text; it is the
      end of the original name. */
  lemma ExtNameShape(p: string)
    ensures var ext := ExtName(p);
      && (ext == [] || (ext[0] == '.' && '.' !in ext[1..] && '/' !in ext))
      && |ext| <= |p|
  {
    var base := BaseName(p);
    var s := StripTrailingSlashes(p);
    var ext := ExtName(p);
    if ext != [] {
      var k := LastDot(base).value;
      assert ext == base[k..];
      assert ext[1..] == base[k + 1..];
      assert forall i :: 0 <= i < |ext| ==> ext[i] == base[k + i];
    }
  }

  /** For a plain file name (no `/`), the extension is a suffix of the name. */
  lemma ExtNameIsSuffix(p: string)
    requires '/' !in p
    ensures |ExtName(p)| <= |p| && p[|p| - |ExtName(p)|..] == ExtName(p)
  {
    NoSlashIsOwnBase(p);
    var ext := ExtName(p);
    if ext != [] {
      var k := LastDot(p).value;
      assert ext == p[k..];
    }
  }

  /** A plain file name is its own last component. */
  lemma NoSlashIsOwnBase(p: string)
    requires '/' !in p
    ensures BaseName(p) == p
  {
    assert p == [] || p[|p| - 1] != '/';
    assert StripTrailingSlashes(p) == p;
    AfterLastSlashWhole(p);
  }

  lemma {:induction false} AfterLastSlashWhole(p: string)
    requires '/' !in p
    ensures AfterLastSlash(p) == p
  {
    if p != [] {
      assert '/' !in p[..|p| - 1];
      AfterLastSlashWhole(p[..|p| - 1]);
    }
  }

  /** The extension is empty for a name without a dot and for a name whose only dot
      leads it (`.bashrc`). */
  lemma ExtNameEmptyCases(p: string)
    requires '/' !in p
    requires '.' !in p || (p != [] && p[0] == '.' && '.' !in p[1..])
    ensures ExtName(p) == ""
  {
    NoSlashIsOwnBase(p);
    forall j | 1 <= j < |p| ensures p[j] != '.' {
      assert p[j] == p[1..][j - 1];
    }
  }

  /** A name whose last component has a dot after its first character gets the text
      from its last dot on: `photo.jpg` gives `.jpg`, `archive.tar.gz` gives `.gz`. */
  lemma ExtNameOfDotted(n: string, e: string)
    requires '/' !in n && '/' !in e && '.' !in e
    requires n != [] && n != "."
    ensures ExtName(n + "." + e) == "." + e
  {
    var p := n + "." + e;
    NoSlashJoin(n, e);
    NoSlashIsOwnBase(p);
    DotJoin(n, e);
    LastDotAt(p, |n|);
    ExtNameAt(p, |n|);
  }

  /** Where the dot of `n + "." + e` sits. */
  lemma DotJoin(n: string, e: string)
    ensures var p := n + "." + e;
      && p[|n|] == '.' && p[|n| + 1..] == e && p[|n|..] == "." + e
      && (p == ".." && n != [] ==> n == ".")
  {
    var p := n + "." + e;
    assert p[|n|..] == "." + e;
    if p == ".." && n != [] {
      assert |n| == 1 && n == p[..1];
    }
  }

  /** The extension of a plain name whose last dot is past its first character. */
  lemma ExtNameAt(p: string, k: nat)
    requires BaseName(p) == p && p != ".."
    requires LastDot(p) == Some(k) && 0 < k
    ensures ExtName(p) == p[k..]
  {
  }

  lemma NoSlashJoin(n: string, e: string)
    requires '/' !in n && '/' !in e
    ensures '/' !in n + "." + e
  {
    var p := n + "." + e;
    forall i | 0 <= i < |p| ensures p[i] != '/' {
      if i < |n| { assert p[i] == n[i]; } else if i > |n| { assert p[i] == e[i - |n| - 1]; }
    }
  }

  /** A dot with no dot after it is the last dot. */
  lemma LastDotAt(s: string, j: nat)
    requires j < |s| && s[j] == '.' && '.' !in s[j + 1..]
    ensures LastDot(s) == Some(j)
  {
  }

  /** `filename` for a post image: `${Date.now()}-${file.fieldname}${ext}`. */
  function BlogFilename(now: nat, fieldname: string, originalname: string): string {
    JsText.Decimal(now) + "-" + fieldname + ExtName(originalname)
  }

  /** A post-image name is the numeral of `now`, a `-`, the form field's name and the
      original extension. */
  lemma BlogFilenameShape(now: nat, fieldname: string, originalname: string)
    ensures var name := BlogFilename(now, fieldname, originalname);
      var d := JsText.Decimal(now);
      && |d| >= 1 && JsText.AllDigits(d) && name[..|d|] == d && name[|d|] == '-'
      && name[|d| + 1..|d| + 1 + |fieldname|] == fieldname
      && name[|name| - |ExtName(originalname)|..] == ExtName(originalname)
  {
    JsText.DecimalRoundTrip(now);
  }

  /** The instant can be read back out of a post-image name: the numeral ends at the
      first `-`. */
  lemma BlogFilenameDeterminesNow(now1: nat, now2: nat, field1: string, field2: string,
                                  orig1: string, orig2: string)
    requires BlogFilename(now1, field1, orig1) == BlogFilename(now2, field2, orig2)
    ensures now1 == now2
  {
    BlogFilenameShape(now1, field1, orig1);
    BlogFilenameShape(now2, field2, orig2);
    DigitPrefixUnique(BlogFilename(now1, field1, orig1), JsText.Decimal(now1), JsText.Decimal(now2));
    JsText.DecimalInjective(now1, now2);
  }

  /** A run of digits ended by a `-` at the front of a text is determined by the text. */
  lemma DigitPrefixUnique(n: string, d1: string, d2: string)
    requires JsText.AllDigits(d1) && JsText.AllDigits(d2)
    requires |d1| < |n| && n[..|d1|] == d1 && n[|d1|] == '-'
    requires |d2| < |n| && n[..|d2|] == d2 && n[|d2|] == '-'
    ensures d1 == d2
  {
  }

  /** Uploads at two different instants never get the same name. */
  lemma BlogFilenamesDistinct(now1: nat, now2: nat, field1: string, field2: string,
                              orig1: string, orig2: string)
    requires now1 != now2
    ensures BlogFilename(now1, field1, orig1) != BlogFilename(now2, field2, orig2)
  {
    if BlogFilename(now1, field1, orig1) == BlogFilename(now2, field2, orig2) {
      BlogFilenameDeterminesNow(now1, now2, field1, field2, orig1, orig2);
    }
  }
}
