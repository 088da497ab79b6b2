/**
 The pure parts of the S3 data backend: object keys are the base name of the path given
 (everything after the last `/`), a listing is the keys of one `list_objects_v2` response, and
 `list_files` keeps the listed keys that match a shell-style pattern.
 */
module S3Keys {
  import opened Optional
  import opened Seqs

  /** Python's `s.split(sep)` for a one-character separator: never empty, parts free of `sep`. */
  function Split(s: string, sep: char): (parts: seq<string>)
    ensures |parts| >= 1
    ensures forall i :: 0 <= i < |parts| ==> sep !in parts[i]
    decreases |s|
  {
    if sep in s then
      var i := IndexOf(s, sep);
      [s[..i]] + Split(s[i + 1..], sep)
    else [s]
  }

  /** Python's `sep.join(parts)`. */
  function Join(parts: seq<string>, sep: char): string
    decreases |parts|
  {
    if parts == [] then ""
    else if |parts| == 1 then parts[0]
    else parts[0] + [sep] + Join(parts[1..], sep)
  }

  /** Joining the parts of a split gives the string back. */
  lemma {:induction false} JoinSplit(s: string, sep: char)
    ensures Join(Split(s, sep), sep) == s
    decreases |s|
  {
    if sep in s {
      var i := IndexOf(s, sep);
      JoinSplit(s[i + 1..], sep);
      var rest := Split(s[i + 1..], sep);
      assert Split(s, sep) == [s[..i]] + rest;
      assert ([s[..i]] + rest)[1..] == rest;
      assert s == s[..i] + [sep] + s[i + 1..];
    }
  }

  /** Splitting a join of separator-free parts gives the parts back. */
  lemma {:induction false} SplitJoin(parts: seq<string>, sep: char)
    requires |parts| >= 1
    requires forall i :: 0 <= i < |parts| ==> sep !in parts[i]
    ensures Split(Join(parts, sep), sep) == parts
    decreases |parts|
  {
    if |parts| > 1 {
      var head, rest := parts[0], parts[1..];
      var s := Join(parts, sep);
      assert s == head + [sep] + Join(rest, sep);
      assert s[|head|] == sep;
      assert IndexOf(s, sep) == |head|;
      assert s[..|head|] == head;
      assert s[|head| + 1..] == Join(rest, sep);
      SplitJoin(rest, sep);
    }
  }

  /** The part after the last separator: the last part of a split. */
  function LastPart(s: string, sep: char): (last: string)
    ensures sep !in last
  {
    var parts := Split(s, sep);
    parts[|parts| - 1]
  }

  /** `last` ends `s`, and is either all of `s` or follows a separator. */
  ghost predicate EndsAfterSeparator(s: string, last: string, sep: char) {
    |last| <= |s| && s[|s| - |last|..] == last && (|last| == |s| || s[|s| - |last| - 1] == sep)
  }

  /** Past the first separator, the last part is the last part of the rest. */
  lemma LastPartStep(s: string, sep: char)
    requires sep in s
    ensures LastPart(s, sep) == LastPart(s[IndexOf(s, sep) + 1..], sep)
  {
    var i := IndexOf(s, sep);
    var rest := Split(s[i + 1..], sep);
    var parts := Split(s, sep);
    assert parts == [s[..i]] + rest;
    assert |parts| == |rest| + 1;
    assert parts[|parts| - 1] == rest[|rest| - 1];
  }

  /** What ends the text after a separator also ends the whole text. */
  lemma EndsAfterSeparatorExtend(s: string, i: nat, last: string, sep: char)
    requires i < |s| && s[i] == sep
    requires EndsAfterSeparator(s[i + 1..], last, sep)
    ensures EndsAfterSeparator(s, last, sep)
  {
    var tail := s[i + 1..];
    var m := |last|;
    assert |tail| == |s| - i - 1;
    assert tail[|tail| - m..] == s[|s| - m..];
    if m < |tail| {
      assert tail[|tail| - m - 1] == s[|s| - m - 1];
    } else {
      assert |s| - m - 1 == i;
    }
  }

  /** The last part of a split is a suffix of the string, preceded by the separator unless it is all of it. */
  lemma {:induction false} LastPartIsSuffix(s: string, sep: char)
    ensures EndsAfterSeparator(s, LastPart(s, sep), sep)
    decreases |s|
  {
    if sep in s {
      var i := IndexOf(s, sep);
      LastPartStep(s, sep);
      LastPartIsSuffix(s[i + 1..], sep);
      EndsAfterSeparatorExtend(s, i, LastPart(s, sep), sep);
    } else {
      assert LastPart(s, sep) == s;
    }
  }

  /** `_convert_path_to_key`: the last `/`-separated part of the path, which holds no `/`. */
  function ConvertPathToKey(path: string): (key: string)
    ensures '/' !in key
  {
    LastPart(path, '/')
  }

  /**
   The key is exactly the longest `/`-free suffix of the path: a suffix, free of `/`, and
   either the whole path or preceded by a `/`.
   */
  lemma KeyIsBaseName(path: string)
    ensures var key := ConvertPathToKey(path);
      |key| <= |path| && path[|path| - |key|..] == key && '/' !in key &&
      (|key| == |path| || path[|path| - |key| - 1] == '/')
  {
    LastPartIsSuffix(path, '/');
  }

  /** A bare base name is its own key. */
  lemma KeyOfBaseName(path: string)
    requires '/' !in path
    ensures ConvertPathToKey(path) == path
  {
    KeyIsBaseName(path);
  }

  /** Converting a key again changes nothing. */
  lemma KeyIdempotent(path: string)
    ensures ConvertPathToKey(ConvertPathToKey(path)) == ConvertPathToKey(path)
  {
    KeyOfBaseName(ConvertPathToKey(path));
  }

  /** A path ending in `/` has the empty key. */
  lemma KeyOfDirectory(path: string)
    requires |path| > 0 && path[|path| - 1] == '/'
    ensures ConvertPathToKey(path) == ""
  {
    KeyIsBaseName(path);
  }

  /** Whatever precedes the last `/`, the key is what follows it. */
  lemma KeyAfterLastSlash(dir: string, base: string)
    requires '/' !in base
    ensures ConvertPathToKey(dir + "/" + base) == base
  {
    var path := dir + "/" + base;
    KeyIsBaseName(path);
    assert path[|dir|] == '/';
    assert path[|dir| + 1..] == base;
  }

  /** The documented example: `/path/to/img.png` becomes `img.png`. */
  lemma KeyExample()
    ensures ConvertPathToKey("/path/to/img.png") == "img.png"
  {
    assert "/path/to/img.png" == "/path/to" + "/" + "img.png";
    KeyAfterLastSlash("/path/to", "img.png");
  }

  /** Paths that differ only in their directories name the same object. */
  lemma KeysIgnoreDirectories(dir1: string, dir2: string, base: string)
    requires '/' !in base
    ensures ConvertPathToKey(dir1 + "/" + base) == ConvertPathToKey(dir2 + "/" + base)
  {
    KeyAfterLastSlash(dir1, base);
    KeyAfterLastSlash(dir2, base);
  }

  /** One listed object; only its key is used. */
  datatype S3Object = S3Object(key: string)

  /** A `list_objects_v2` response; `Contents` is missing when nothing is listed. */
  datatype ListResponse = ListResponse(contents: Option<seq<S3Object>>)

  /** `list_by_prefix`: the keys of the response, in response order; none when `Contents` is missing. */
  function ListByPrefix(response: ListResponse): (keys: seq<string>)
    ensures response.contents.None? ==> keys == []
    ensures response.contents.Some? ==>
      |keys| == |response.contents.value| &&
      forall i :: 0 <= i < |keys| ==> keys[i] == response.contents.value[i].key
  {
    var items := response.contents.GetOr([]);
    seq(|items|, i requires 0 <= i < |items| => items[i].key)
  }

  /** The pattern test of `list_files`, with `matches` standing for `fnmatch.fnmatch`. */
  function MatchesPattern(pattern: string, matches: (string, string) -> bool): string -> bool {
    key => matches(key, pattern)
  }

  /** `list_files`: the listed keys that match the pattern, in listing order. */
  function ListFiles(response: ListResponse, pattern: string, matches: (string, string) -> bool): (files: seq<string>)
    ensures forall k :: k in files <==> k in ListByPrefix(response) && matches(k, pattern)
    ensures IsSubsequence(files, ListByPrefix(response))
  {
    FilterIsSubsequence(ListByPrefix(response), MatchesPattern(pattern, matches));
    Filter(ListByPrefix(response), MatchesPattern(pattern, matches))
  }

  /** Each matching key is listed as many times as the response lists it. */
  lemma ListFilesCounts(response: ListResponse, pattern: string, matches: (string, string) -> bool, k: string)
    ensures multiset(ListFiles(response, pattern, matches))[k] ==
      if matches(k, pattern) then multiset(ListByPrefix(response))[k] else 0
  {
    FilterCounts(ListByPrefix(response), MatchesPattern(pattern, matches), k);
  }

  /** A response without `Contents` lists no file, whatever the pattern. */
  lemma ListFilesOfEmptyResponse(pattern: string, matches: (string, string) -> bool)
    ensures ListFiles(ListResponse(None), pattern, matches) == []
  {
  }
}
