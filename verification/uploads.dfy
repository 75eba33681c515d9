/** The file-name check applied to uploaded photos (`allowed_file`). */
module Uploads {
  import opened Base
  import opened Text

  /** `ALLOWED_EXT`. */
  const AllowedExtensions: set<string> := {"png", "jpg", "jpeg", "gif"}

  /** `fn.rsplit('.', 1)[1]` for a name that contains a dot: everything after
      the last dot. None when the name has no dot at all. */
  function AfterLastDot(fn: string): (r: Option<string>)
    ensures r.None? <==> '.' !in fn
    ensures r.Some? ==> && |r.value| < |fn|
                        && fn[|fn| - |r.value| - 1] == '.'
                        && fn[|fn| - |r.value|..] == r.value
                        && '.' !in r.value
    decreases |fn|
  {
    if |fn| == 0 then None
    else if fn[|fn| - 1] == '.' then Some("")
    else
      var init := fn[..|fn| - 1];
      assert fn == init + [fn[|fn| - 1]];
      match AfterLastDot(init)
      case None => None
      case Some(e) =>
        assert fn[|fn| - |e| - 1..] == init[|init| - |e|..] + [fn[|fn| - 1]];
        Some(e + [fn[|fn| - 1]])
  }

  /** Position `i` of `fn` holds its last dot. */
  predicate LastDotAt(fn: string, i: int) {
    0 <= i < |fn| && fn[i] == '.' && '.' !in fn[i + 1..]
  }

  /** The extension, lower-cased, is in `ALLOWED_EXT`. */
  predicate ExtensionAllowed(ext: string) {
    AsciiLower(ext) in AllowedExtensions
  }

  /** `allowed_file`: the name has a dot, and the text after its last dot,
      lower-cased, is one of the allowed extensions. */
  function AllowedFile(fn: string): (r: bool)
    ensures r <==> exists i :: LastDotAt(fn, i) && ExtensionAllowed(fn[i + 1..])
  {
    match AfterLastDot(fn)
    case None =>
      NoDotNoLastDot(fn);
      false
    case Some(ext) =>
      AfterLastDotIsLastDot(fn);
      ExtensionAllowed(ext)
  }

  lemma NoDotNoLastDot(fn: string)
    requires '.' !in fn
    ensures forall i :: !LastDotAt(fn, i)
  {
  }

  /** The text `AfterLastDot` returns starts right after the only position
      that satisfies `LastDotAt`. */
  lemma AfterLastDotIsLastDot(fn: string)
    requires AfterLastDot(fn).Some?
    ensures var j := |fn| - |AfterLastDot(fn).value| - 1;
            && LastDotAt(fn, j) && fn[j + 1..] == AfterLastDot(fn).value
            && forall i | LastDotAt(fn, i) :: i == j
  {
    var j := |fn| - |AfterLastDot(fn).value| - 1;
    forall i | LastDotAt(fn, i) ensures i == j {
      LastDotUnique(fn, i, j);
    }
  }

  /** A string has at most one dot with no dot after it. */
  lemma LastDotUnique(fn: string, i: int, j: int)
    requires LastDotAt(fn, i) && LastDotAt(fn, j)
    ensures i == j
  {
  }

  /** A name built as `base.ext`, with no dot in `ext`, is accepted exactly
      when `ext` is an allowed extension in any letter case; whatever dots
      `base` holds do not matter. */
  lemma AllowedFileOfName(base: string, ext: string)
    requires '.' !in ext
    ensures AllowedFile(base + "." + ext) <==> ExtensionAllowed(ext)
  {
    var fn := base + "." + ext;
    var i := |base|;
    assert LastDotAt(fn, i) && fn[i + 1..] == ext;
  }

  /** Upper-case extensions pass too, as Python lower-cases before the test. */
  lemma UpperCaseExtensionAllowed(base: string)
    ensures AllowedFile(base + ".JPG")
  {
    assert base + ".JPG" == base + "." + "JPG";
    AllowedFileOfName(base, "JPG");
    LowerJpg();
  }

  lemma LowerJpg()
    ensures ExtensionAllowed("JPG")
  {
    var low := AsciiLower("JPG");
    assert low[0] == 'j' && low[1] == 'p' && low[2] == 'g';
    assert low == "jpg";
  }

  /** A name without a dot is refused even when it spells an extension. */
  lemma BareExtensionRefused()
    ensures !AllowedFile("png")
  {
    assert AfterLastDot("png").None?;
  }
}
