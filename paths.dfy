/** The path handling of `parse_to_md`: the extension of a path is the last
    piece of `path.split('.')`. */
module Paths {

  /** The separator the extension is split off with. */
  const Dot: char := '.'

  /** Python's `s.split(sep)` with an explicit one-character separator:
      the maximal separator-free runs of `s`, in order, including the
      empty runs before, between and after separators. */
  function Split(s: string, sep: char): (pieces: seq<string>)
    ensures |pieces| >= 1
    ensures forall i :: 0 <= i < |pieces| ==> sep !in pieces[i]
    ensures Join(pieces, sep) == s
  {
    if s == [] then [[]]
    else
      var rest := Split(s[1..], sep);
      if s[0] == sep then
        [[]] + rest
      else
        var pieces := [[s[0]] + rest[0]] + rest[1..];
        assert pieces[1..] == rest[1..];
        pieces
  }

  /** Python's `sep.join(pieces)`, the inverse of `Split`. */
  function Join(pieces: seq<string>, sep: char): string
    requires |pieces| >= 1
  {
    if |pieces| == 1 then pieces[0] else pieces[0] + [sep] + Join(pieces[1..], sep)
  }

  /** The last piece of a join is a suffix of it, preceded by the separator
      when there is more than one piece. */
  lemma {:induction false} JoinEndsWithLast(pieces: seq<string>, sep: char)
    requires |pieces| >= 1
    ensures |pieces| == 1 ==> Join(pieces, sep) == pieces[0]
    ensures var last, s := pieces[|pieces| - 1], Join(pieces, sep);
      |last| <= |s| && s[|s| - |last|..] == last &&
      (|pieces| > 1 ==> |last| < |s| && s[|s| - |last| - 1] == sep)
  {
    if |pieces| > 1 {
      var tail := pieces[1..];
      JoinEndsWithLast(tail, sep);
      var last, t := pieces[|pieces| - 1], Join(tail, sep);
      assert tail[|tail| - 1] == last;
      var s := Join(pieces, sep);
      assert s == pieces[0] + [sep] + t;
      assert s[|s| - |t|..] == t;
      assert s[|s| - |last|..] == t[|t| - |last|..];
      if |tail| == 1 {
        assert s[|s| - |last| - 1] == sep;
      } else {
        assert s[|s| - |last| - 1] == t[|t| - |last| - 1];
      }
    }
  }

  /** `ext` is the text after the last dot of `path`, or all of `path`
      when it has no dot. */
  predicate IsExtensionOf(path: string, ext: string)
  {
    |ext| <= |path| && path[|path| - |ext|..] == ext && Dot !in ext &&
    (|ext| == |path| || path[|path| - |ext| - 1] == Dot)
  }

  /** `path.split('.')[-1]`, as `parse_to_md` computes it. */
  function Extension(path: string): (ext: string)
    ensures IsExtensionOf(path, ext)
    ensures Dot !in path ==> ext == path
  {
    var pieces := Split(path, Dot);
    JoinEndsWithLast(pieces, Dot);
    pieces[|pieces| - 1]
  }

  /** A suffix of `path` longer than one of its extensions reaches past the
      dot that precedes that extension. */
  lemma LongerSuffixHasDot(path: string, ext: string, suffix: string)
    requires IsExtensionOf(path, ext)
    requires |suffix| <= |path| && path[|path| - |suffix|..] == suffix
    ensures |suffix| > |ext| ==> Dot in suffix
  {
    if |suffix| > |ext| {
      assert suffix[|suffix| - |ext| - 1] == path[|path| - |ext| - 1];
    }
  }

  /** The description by the last dot pins the extension down exactly. */
  lemma ExtensionCharacterized(path: string, ext: string)
    ensures ext == Extension(path) <==> IsExtensionOf(path, ext)
  {
    if IsExtensionOf(path, ext) {
      var e := Extension(path);
      LongerSuffixHasDot(path, e, ext);
      LongerSuffixHasDot(path, ext, e);
    }
  }

  /** Slicing a concatenation inside its left part. */
  lemma ConcatSlices(a: string, b: string, i: nat)
    requires i <= |a|
    ensures (a + b)[i..] == a[i..] + b
    ensures i < |a| ==> (a + b)[i] == a[i]
  {
  }

  /** The extension of `folder + file`, the path the folder walk builds: the
      file's own extension when the file name has a dot; otherwise the dotless
      file name runs on into the folder's text. */
  lemma ExtensionOfConcat(folder: string, file: string)
    ensures Extension(folder + file) ==
      if Dot in file then Extension(file)
      else if Dot in folder then Extension(folder) + file
      else folder + file
  {
    if Dot in file {
      ExtensionOfConcatInFile(folder, file);
    } else if Dot in folder {
      ExtensionOfConcatInFolder(folder, file);
    } else {
      assert Dot !in folder + file;
    }
  }

  lemma ExtensionOfConcatInFile(folder: string, file: string)
    requires Dot in file
    ensures Extension(folder + file) == Extension(file)
  {
    var path, e := folder + file, Extension(file);
    assert |e| < |file|;
    var i := |file| - |e|;
    ConcatSlicesRight(folder, file, i);
    ConcatSlicesRight(folder, file, i - 1);
    assert IsExtensionOf(path, e);
    ExtensionCharacterized(path, e);
  }

  /** Slicing a concatenation inside its right part. */
  lemma ConcatSlicesRight(a: string, b: string, j: nat)
    requires j <= |b|
    ensures (a + b)[|a| + j..] == b[j..]
    ensures j < |b| ==> (a + b)[|a| + j] == b[j]
  {
  }

  lemma ExtensionOfConcatInFolder(folder: string, file: string)
    requires Dot !in file && Dot in folder
    ensures Extension(folder + file) == Extension(folder) + file
  {
    var path, e := folder + file, Extension(folder);
    assert |e| < |folder|;
    var i := |folder| - |e|;
    ConcatSlices(folder, file, i);
    ConcatSlices(folder, file, i - 1);
    assert path[|path| - |e + file|..] == e + file;
    ExtensionCharacterized(path, e + file);
  }
}
