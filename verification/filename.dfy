/** Base-name extraction (`filename` in main.cpp): the text after the last '/', of which
    at most the last 255 bytes are kept so that its length fits in one byte. */
module PathName {
  import opened Wrappers
  import opened Bytes

  /** The path separator '/'. Escaped separators ("\/") are not recognised: every '/'
      byte separates. */
  const SLASH: byte := 0x2F

  /** The longest base name that is kept; its length must fit in the trailer's 8-bit field. */
  const MAX_NAME_LENGTH: nat := 255

  /** No byte of `s` is a separator. */
  predicate NoSlash(s: seq<byte>)
  {
    forall i :: 0 <= i < |s| ==> s[i] != SLASH
  }

  /** `s` is a suffix of `t`. */
  predicate IsSuffix(s: seq<byte>, t: seq<byte>)
  {
    |s| <= |t| && s == t[|t| - |s|..]
  }

  /** `std::string::find_last_of` for a single byte: the index of the last occurrence of
      `c` in `s`, or `None` (`std::string::npos`) when `c` does not occur. */
  function FindLastOf(s: seq<byte>, c: byte): (r: Option<nat>)
    ensures r.Some? ==> r.value < |s| && s[r.value] == c
    ensures r.Some? ==> forall j :: r.value < j < |s| ==> s[j] != c
    ensures r.None? ==> forall j :: 0 <= j < |s| ==> s[j] != c
  {
    if |s| == 0 then None
    else if s[|s| - 1] == c then Some(|s| - 1)
    else FindLastOf(s[..|s| - 1], c)
  }

  /** The part of `path` after its last separator, or the whole path when it has none. */
  function BaseName(path: seq<byte>): (r: seq<byte>)
    ensures IsSuffix(r, path)
    ensures NoSlash(r)
    ensures r == path || path[|path| - |r| - 1] == SLASH
  {
    match FindLastOf(path, SLASH)
    case None => path
    case Some(p) => path[p + 1..]
  }

  /** `filename`: the base name of `path`, cut down to its LAST 255 bytes when it is longer
      (the leading bytes are dropped, not the trailing ones). The result is the longest
      separator-free suffix of the path, capped at 255 bytes. */
  function Filename(path: seq<byte>): (r: seq<byte>)
    ensures |r| <= MAX_NAME_LENGTH
    ensures IsSuffix(r, path)
    ensures NoSlash(r)
    ensures |r| == MAX_NAME_LENGTH || r == path || path[|path| - |r| - 1] == SLASH
  {
    var file := BaseName(path);
    if |file| > MAX_NAME_LENGTH then
      var r := file[|file| - MAX_NAME_LENGTH..];
      TruncationKeepsSuffix(file, path);
      r
    else
      file
  }

  /** Keeping the last 255 bytes of a separator-free suffix of `path` gives a
      separator-free suffix of `path` of exactly 255 bytes. */
  lemma TruncationKeepsSuffix(file: seq<byte>, path: seq<byte>)
    requires IsSuffix(file, path) && NoSlash(file) && |file| > MAX_NAME_LENGTH
    ensures IsSuffix(file[|file| - MAX_NAME_LENGTH..], path)
    ensures NoSlash(file[|file| - MAX_NAME_LENGTH..])
  {
    SuffixOfSuffix(file[|file| - MAX_NAME_LENGTH..], file, path);
    LastBytesHaveNoSlash(file);
  }

  /** A suffix of a suffix of `t` is a suffix of `t`. */
  lemma SuffixOfSuffix(r: seq<byte>, s: seq<byte>, t: seq<byte>)
    requires IsSuffix(r, s) && IsSuffix(s, t)
    ensures IsSuffix(r, t)
  {
    assert t[|t| - |s|..][|s| - |r|..] == t[|t| - |r|..];
  }

  /** `s` is a separator-free suffix of `path` that starts right after a separator or at
      the start of the path: the base name as a property rather than a search. */
  predicate IsWholeBaseName(s: seq<byte>, path: seq<byte>)
  {
    IsSuffix(s, path) && NoSlash(s) && (s == path || path[|path| - |s| - 1] == SLASH)
  }

  /** A base name is the longest separator-free suffix of its path. */
  lemma BaseNameIsLongest(x: seq<byte>, y: seq<byte>, path: seq<byte>)
    requires IsSuffix(x, path) && NoSlash(x)
    requires IsWholeBaseName(y, path)
    ensures |x| <= |y|
  {
  }

  /** The contract of `Filename` pins its result down: any separator-free suffix of `path`
      of at most 255 bytes that either has exactly 255 bytes or starts right after a
      separator (or at the start of the path) is `Filename(path)`. */
  lemma FilenameUnique(path: seq<byte>, x: seq<byte>)
    requires IsSuffix(x, path) && NoSlash(x) && |x| <= MAX_NAME_LENGTH
    requires |x| == MAX_NAME_LENGTH || x == path || path[|path| - |x| - 1] == SLASH
    ensures x == Filename(path)
  {
  }

  /** A bare name (no separator) is its own file name when it has at most 255 bytes, and
      otherwise its file name is its last 255 bytes. */
  lemma FilenameOfBareName(path: seq<byte>)
    requires NoSlash(path)
    ensures |path| <= MAX_NAME_LENGTH ==> Filename(path) == path
    ensures |path| > MAX_NAME_LENGTH ==> Filename(path) == path[|path| - MAX_NAME_LENGTH..]
  {
    if |path| <= MAX_NAME_LENGTH {
      FilenameUnique(path, path);
    } else {
      var t := path[|path| - MAX_NAME_LENGTH..];
      LastBytesHaveNoSlash(path);
      FilenameUnique(path, t);
    }
  }

  /** The last 255 bytes of a separator-free sequence are separator-free. */
  lemma LastBytesHaveNoSlash(name: seq<byte>)
    requires NoSlash(name) && |name| > MAX_NAME_LENGTH
    ensures NoSlash(name[|name| - MAX_NAME_LENGTH..])
  {
    var t := name[|name| - MAX_NAME_LENGTH..];
    forall i | 0 <= i < |t|
      ensures t[i] != SLASH
    {
      assert t[i] == name[|name| - MAX_NAME_LENGTH + i];
    }
  }

  /** The file name of `prefix/name`, where `name` has no separator, is `name` when it has
      at most 255 bytes and otherwise its last 255 bytes. */
  lemma FilenameOfJoin(prefix: seq<byte>, name: seq<byte>)
    requires NoSlash(name)
    ensures |name| <= MAX_NAME_LENGTH ==> Filename(prefix + [SLASH] + name) == name
    ensures |name| > MAX_NAME_LENGTH ==>
      Filename(prefix + [SLASH] + name) == name[|name| - MAX_NAME_LENGTH..]
  {
    var path := prefix + [SLASH] + name;
    assert path[|prefix| + 1..] == name;
    if |name| <= MAX_NAME_LENGTH {
      assert path[|path| - |name| - 1] == SLASH;
      FilenameUnique(path, name);
    } else {
      var t := name[|name| - MAX_NAME_LENGTH..];
      assert path[|path| - |t|..] == t;
      LastBytesHaveNoSlash(name);
      FilenameUnique(path, t);
    }
  }

  /** Taking the file name of a file name changes nothing. */
  lemma FilenameIdempotent(path: seq<byte>)
    ensures Filename(Filename(path)) == Filename(path)
  {
    FilenameOfBareName(Filename(path));
  }
}
