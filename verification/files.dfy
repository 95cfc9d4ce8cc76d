/** Local files and the alias tags derived from their relative paths. */
module Files {

  /** A regular file found under the root directory: its path relative to the
      root (`os.path.relpath(file, directory)`), its name with extension
      (`Path.name`) and its name without extension (`Path.stem`). */
  datatype LocalFile = LocalFile(relPath: string, name: string, stem: string)

  function Stems(files: seq<LocalFile>): seq<string> {
    seq(|files|, k requires 0 <= k < |files| => files[k].stem)
  }

  /** `str.split(sep)` for a one-character separator: the pieces between
      separators, at least one, none containing the separator. */
  function Split(s: string, sep: char): (parts: seq<string>)
    ensures |parts| >= 1
    decreases |s|
  {
    if |s| == 0 then [""]
    else
      var rest := Split(s[1..], sep);
      if s[0] == sep then [""] + rest
      else [[s[0]] + rest[0]] + rest[1..]
  }

  /** No piece of a split contains the separator. */
  lemma {:induction false} SplitPiecesAvoidSeparator(s: string, sep: char)
    ensures forall k :: 0 <= k < |Split(s, sep)| ==> sep !in Split(s, sep)[k]
    decreases |s|
  {
    if |s| > 0 {
      SplitPiecesAvoidSeparator(s[1..], sep);
      var rest := Split(s[1..], sep);
      if s[0] != sep {
        assert sep !in [s[0]] + rest[0];
      }
    }
  }

  /** `sep.join(parts)`. */
  function Join(parts: seq<string>, sep: char): string
    requires |parts| >= 1
    decreases |parts|
  {
    if |parts| == 1 then parts[0] else parts[0] + [sep] + Join(parts[1..], sep)
  }

  /** Joining the pieces of a split gives back the string. */
  lemma {:induction false} JoinSplit(s: string, sep: char)
    ensures Join(Split(s, sep), sep) == s
    decreases |s|
  {
    if |s| > 0 {
      var rest := Split(s[1..], sep);
      JoinSplit(s[1..], sep);
      if s[0] == sep {
        assert ([""] + rest)[1..] == rest;
      } else if |rest| == 1 {
        assert s == [s[0]] + s[1..];
      } else {
        var parts := [[s[0]] + rest[0]] + rest[1..];
        assert parts[1..] == rest[1..];
        assert s == [s[0]] + s[1..];
      }
    }
  }

  lemma {:induction false} SplitWordPrefix(w: string, t: string, sep: char)
    requires sep !in w
    ensures Split(w + t, sep) == [w + Split(t, sep)[0]] + Split(t, sep)[1..]
    decreases |w|
  {
    if |w| > 0 {
      SplitWordPrefix(w[1..], t, sep);
      assert (w + t)[1..] == w[1..] + t;
      assert [w[0]] + (w[1..] + Split(t, sep)[0]) == w + Split(t, sep)[0];
    } else {
      var parts := Split(t, sep);
      assert w + t == t;
      assert w + parts[0] == parts[0];
      assert [parts[0]] + parts[1..] == parts;
    }
  }

  /** Splitting a join of separator-free pieces gives back the pieces. */
  lemma {:induction false} SplitJoin(parts: seq<string>, sep: char)
    requires |parts| >= 1
    requires forall k :: 0 <= k < |parts| ==> sep !in parts[k]
    ensures Split(Join(parts, sep), sep) == parts
    decreases |parts|
  {
    if |parts| == 1 {
      SplitWordPrefix(parts[0], "", sep);
      assert parts[0] + "" == parts[0];
    } else {
      var tail := Join(parts[1..], sep);
      SplitJoin(parts[1..], sep);
      var rest := [sep] + tail;
      SplitWordPrefix(parts[0], rest, sep);
      assert parts[0] + [sep] + tail == parts[0] + rest;
      assert rest[0] == sep && rest[1..] == tail;
      assert Split(rest, sep) == [""] + parts[1..];
      assert parts[0] + "" == parts[0];
      assert parts == [parts[0]] + parts[1..];
    }
  }

  /** Lines 121-125 on the split relative path: drop a leading "." segment,
      then drop the last segment (the file name) when one is left. */
  function Aliases(segments: seq<string>): (tags: seq<string>)
    requires |segments| >= 1
    ensures |tags| < |segments|
  {
    var trimmed := if segments[0] == "." then segments[1..] else segments;
    if |trimmed| >= 1 then trimmed[..|trimmed| - 1] else trimmed
  }

  /** The aliases are the segments just before the last one: all of them
      but a leading "." segment, which is dropped first. */
  lemma AliasesAreTrailingSegments(segments: seq<string>)
    requires |segments| >= 1
    ensures var tags := Aliases(segments);
      && (forall k :: 0 <= k < |tags| ==> tags[k] == segments[|segments| - 1 - |tags| + k])
      && (|tags| == |segments| - 1 <==> segments[0] != "." || |segments| == 1)
      && (|tags| == |segments| - 2 <==> segments[0] == "." && |segments| >= 2)
  {
  }

  /** Lines 118-125: the aliases of a file are derived from its relative path. */
  function AliasesOf(relPath: string, sep: char): (tags: seq<string>)
    ensures |tags| < |Split(relPath, sep)|
    ensures forall k :: 0 <= k < |tags| ==> sep !in tags[k]
  {
    SplitPiecesAvoidSeparator(relPath, sep);
    AliasesAreTrailingSegments(Split(relPath, sep));
    Aliases(Split(relPath, sep))
  }

  /** A file at `dirs[0]/.../dirs[n-1]/name` gets exactly the intermediate
      directory names as aliases; a file directly under the root gets none. */
  lemma AliasesAreDirectories(dirs: seq<string>, name: string, sep: char)
    requires forall k :: 0 <= k < |dirs| ==> sep !in dirs[k]
    requires sep !in name
    requires |dirs| > 0 ==> dirs[0] != "."
    ensures AliasesOf(Join(dirs + [name], sep), sep) == dirs
  {
    var segments := dirs + [name];
    SplitJoin(segments, sep);
    if |dirs| == 0 {
      assert segments == [name];
      assert name != "." ==> AliasesOf(Join(segments, sep), sep) == [];
    } else {
      assert segments[0] == dirs[0];
      assert segments[..|segments| - 1] == dirs;
    }
  }

  /** A leading "." segment is dropped before the file name is. */
  lemma AliasesSkipCurrentDirectory(dirs: seq<string>, name: string, sep: char)
    requires sep != '.'
    requires forall k :: 0 <= k < |dirs| ==> sep !in dirs[k]
    requires sep !in name
    ensures AliasesOf(Join(["."] + dirs + [name], sep), sep) == dirs
  {
    var segments := ["."] + (dirs + [name]);
    assert ["."] + dirs + [name] == segments;
    assert forall k :: 0 <= k < |dirs + [name]| ==> sep !in (dirs + [name])[k];
    assert sep !in segments[0];
    assert forall k :: 1 <= k < |segments| ==> segments[k] == (dirs + [name])[k - 1];
    SplitJoin(segments, sep);
    assert segments[1..] == dirs + [name];
    assert (dirs + [name])[..|dirs|] == dirs;
  }

  /** The relative path "." yields no aliases: after the "." segment is
      dropped the list is empty and nothing more is removed. */
  lemma CurrentDirectoryHasNoAliases(sep: char)
    requires sep != '.'
    ensures AliasesOf(".", sep) == []
  {
    SplitJoin(["."], sep);
  }

  /** The worked examples: `a/b/name.png` gives `["a", "b"]` and `name.png`
      gives `[]`. */
  lemma AliasExamples()
    ensures AliasesOf("a/b/name.png", '/') == ["a", "b"]
    ensures AliasesOf("name.png", '/') == []
  {
    assert Join(["name.png"], '/') == "name.png";
    assert Join(["b", "name.png"], '/') == "b/name.png";
    assert Join(["a", "b", "name.png"], '/') == "a/b/name.png";
    assert ["a", "b"] + ["name.png"] == ["a", "b", "name.png"];
    AliasesAreDirectories(["a", "b"], "name.png", '/');
    assert [] + ["name.png"] == ["name.png"];
    AliasesAreDirectories([], "name.png", '/');
  }
}
