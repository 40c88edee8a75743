/**
 * The file system as the media pipeline sees it: paths built by joining
 * components onto a base directory, and a disk mapping each present path to
 * the artifact stored there.
 */
module Files {
  import opened Seqs
  import opened Wrappers
  import opened Text

  /** A path as its components; `base.join(name)` appends one component. */
  type Path = seq<string>

  function JoinPath(base: Path, name: string): (r: Path)
    ensures |r| == |base| + 1 && r[..|base|] == base && r[|base|] == name
  {
    base + [name]
  }

  /** The directory holding video thumbnails, below the media directory. */
  const ThumbsDir: string := ".thumbs"

  /** `format!("{a:07}_{b}.{ext}")`: the name under which a stored post's media file lives. */
  function PaddedName(a: int, b: int, ext: string): string {
    FormatZeroPadded(a, 7) + "_" + IntToString(b) + "." + ext
  }

  /** The parts of `s` before and after the first `c`, if `s` contains one. */
  function SplitAtFirst(s: string, c: char): (r: Option<(string, string)>)
    ensures r.Some? ==> c !in r.value.0 && s == r.value.0 + [c] + r.value.1
    ensures r.None? <==> c !in s
  {
    if s == [] then None
    else if s[0] == c then Some(([], s[1..]))
    else match SplitAtFirst(s[1..], c)
      case None => None
      case Some(p) => Some(([s[0]] + p.0, p.1))
  }

  lemma {:induction false} SplitAtFirstOf(x: string, c: char, y: string)
    requires c !in x
    ensures SplitAtFirst(x + [c] + y, c) == Some((x, y))
    decreases |x|
  {
    if x != [] {
      var s := x + [c] + y;
      assert s[0] == x[0] && s[0] != c;
      assert s[1..] == x[1..] + [c] + y;
      SplitAtFirstOf(x[1..], c, y);
      assert [x[0]] + x[1..] == x;
    } else {
      assert x + [c] + y == [c] + y;
    }
  }

  /** Reads a media file name back into the two numbers and the extension. */
  function ParsePaddedName(name: string): Option<(int, int, string)> {
    match SplitAtFirst(name, '_')
    case None => None
    case Some(p) =>
      match SplitAtFirst(p.1, '.')
      case None => None
      case Some(q) =>
        match (ParseSigned(p.0), ParseSigned(q.0))
        case (Some(a), Some(b)) => Some((a, b, q.1))
        case _ => None
  }

  /** The name determines the numbers and the extension, so distinct posts never share a file. */
  lemma PaddedNameRoundTrip(a: int, b: int, ext: string)
    ensures ParsePaddedName(PaddedName(a, b, ext)) == Some((a, b, ext))
  {
    IntToStringIsUnpadded(b);
    NoSeparators(a, 7);
    NoSeparators(b, 0);
    ParseSignedOfPadded(a, 7);
    ParseSignedOfPadded(b, 0);
    ParseJoined(FormatZeroPadded(a, 7), IntToString(b), ext, a, b);
  }

  /** A rendered integer holds neither separator of a media file name. */
  lemma NoSeparators(n: int, w: nat)
    ensures '_' !in FormatZeroPadded(n, w) && '.' !in FormatZeroPadded(n, w)
  {
    PaddedChars(n, w);
  }

  /** Two numbers without separators, joined by `_` and followed by `.` and an extension, read back. */
  lemma ParseJoined(x: string, y: string, ext: string, a: int, b: int)
    requires '_' !in x && '.' !in y
    requires ParseSigned(x) == Some(a) && ParseSigned(y) == Some(b)
    ensures ParsePaddedName(x + "_" + y + "." + ext) == Some((a, b, ext))
  {
    assert x + "_" + y + "." + ext == x + ['_'] + (y + "." + ext);
    SplitAtFirstOf(x, '_', y + "." + ext);
    assert y + "." + ext == y + ['.'] + ext;
    SplitAtFirstOf(y, '.', ext);
  }

  lemma PaddedNameInjective(a: int, b: int, e: string, a': int, b': int, e': string)
    ensures PaddedName(a, b, e) == PaddedName(a', b', e') <==> a == a' && b == b' && e == e'
  {
    PaddedNameRoundTrip(a, b, e);
    PaddedNameRoundTrip(a', b', e');
  }

  /** The example of the naming rule: id 42, external id 99, extension `png`. */
  lemma PaddedNameExample()
    ensures PaddedName(42, 99, "png") == "0000042_99.png"
  {
    assert NatToDigits(42) == "42";
    assert NatToDigits(99) == "99";
    assert Repeat('0', 5) == "00000";
  }

  /** What a file holds, abstractly: a token for the artifact written there. */
  type Content = nat

  /** How `move_file` got the file to its destination, or that it could not. */
  datatype MoveOutcome =
    | Renamed   // `rename` succeeded: the source path is gone
    | Copied    // `rename` failed and the streamed copy succeeded: the source stays
    | CopyFailed // `rename` failed and opening, creating or copying failed too

  class Disk {
    var files: map<Path, Content>

    constructor (initial: map<Path, Content>)
      ensures files == initial
    {
      files := initial;
    }

    /**
     * `move_file(from, to)`: tries a rename, falls back to a copy. A missing
     * source makes both fail. The outcome of the attempts is a parameter.
     */
    method MoveFile(from: Path, to: Path, how: MoveOutcome) returns (ok: bool)
      modifies this
      ensures ok <==> from in old(files) && how != CopyFailed
      ensures ok && how == Renamed ==> files == (old(files) - {from})[to := old(files)[from]]
      ensures ok && how == Copied ==> files == old(files)[to := old(files)[from]]
      ensures !ok ==> files == old(files)
    {
      ok := from in files && how != CopyFailed;
      if ok {
        var c := files[from];
        if how == Renamed {
          files := (files - {from})[to := c];
        } else {
          files := files[to := c];
        }
      }
    }

    /** `remove_file(path)` with its error ignored: a missing path is simply left missing. */
    method RemoveFile(path: Path)
      modifies this
      ensures files == old(files) - {path}
    {
      files := files - {path};
    }

    /** Removes every listed path, in order. */
    method RemoveAll(paths: seq<Path>)
      modifies this
      ensures files == old(files) - ToSet(paths)
    {
      var i := 0;
      while i < |paths|
        invariant 0 <= i <= |paths|
        invariant files == old(files) - ToSet(paths[..i])
      {
        assert paths[..i + 1] == paths[..i] + [paths[i]];
        ToSetAppend(paths[..i], [paths[i]]);
        RemoveFile(paths[i]);
        i := i + 1;
      }
      assert paths[..i] == paths;
    }
  }
}
