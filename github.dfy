/** Recognising GitHub permalinks (src/github.ts): `parsePath` on the hostname and pathname
    of the parsed URL, and `pathForFile`, which writes a file's path back out. */
module GitHub {
  import opened Wrappers

  /** A file at a commit of a repository. */
  datatype File = File(owner: string, repo: string, commitSha: string, path: string)

  datatype ParseError =
    | NotGithubUrl(hostname: string)
    | NotGithubPermalink(pathname: string)

  const Separator: char := '/'

  // ---------------------------------------------------------------------------
  // String.prototype.split and Array.prototype.join on one separator character

  /** `Join(pieces, sep)`: the pieces with one separator between neighbours; the empty list
      joins to the empty string. */
  function Join(pieces: seq<string>, sep: char): (r: string)
    ensures |pieces| == 1 ==> r == pieces[0]
    decreases |pieces|
  {
    if pieces == [] then []
    else if |pieces| == 1 then pieces[0]
    else pieces[0] + [sep] + Join(pieces[1..], sep)
  }

  /** `s.split(sep)`: the maximal separator-free runs of `s`, always at least one, which
      join back to `s`. */
  function Split(s: string, sep: char): (r: seq<string>)
    ensures |r| >= 1
    ensures forall i :: 0 <= i < |r| ==> sep !in r[i]
    ensures Join(r, sep) == s
    decreases |s|
  {
    if s == [] then [[]]
    else
      var rest := Split(s[1..], sep);
      if s[0] == sep then
        [[]] + rest
      else
        [[s[0]] + rest[0]] + rest[1..]
  }

  /** A separator-free head splits off as the first piece. */
  lemma {:induction false} SplitAfterPiece(a: string, b: string, sep: char)
    requires sep !in a
    ensures Split(a + [sep] + b, sep) == [a] + Split(b, sep)
    decreases |a|
  {
    if a == [] {
      assert a + [sep] + b == [sep] + b;
      assert ([sep] + b)[1..] == b;
    } else {
      assert (a + [sep] + b)[1..] == a[1..] + [sep] + b;
      SplitAfterPiece(a[1..], b, sep);
      assert [a[0]] + a[1..] == a;
    }
  }

  /** Splitting what was joined from separator-free pieces gives the pieces back. */
  lemma {:induction false} SplitJoin(pieces: seq<string>, sep: char)
    requires |pieces| >= 1
    requires forall i :: 0 <= i < |pieces| ==> sep !in pieces[i]
    ensures Split(Join(pieces, sep), sep) == pieces
    decreases |pieces|
  {
    if |pieces| == 1 {
      SplitWithoutSeparator(pieces[0], sep);
    } else {
      SplitJoin(pieces[1..], sep);
      SplitAfterPiece(pieces[0], Join(pieces[1..], sep), sep);
      assert [pieces[0]] + pieces[1..] == pieces;
    }
  }

  /** A string without the separator splits into itself alone. */
  lemma {:induction false} SplitWithoutSeparator(s: string, sep: char)
    requires sep !in s
    ensures Split(s, sep) == [s]
    decreases |s|
  {
    if s != [] {
      SplitWithoutSeparator(s[1..], sep);
      assert [s[0]] + s[1..] == s;
    }
  }

  /** Joining a list with more than one piece: the head, a separator, the rest joined. */
  lemma JoinCons(pieces: seq<string>, sep: char)
    requires |pieces| >= 2
    ensures Join(pieces, sep) == pieces[0] + [sep] + Join(pieces[1..], sep)
  {
  }

  // ---------------------------------------------------------------------------
  // Permalinks

  predicate IsHexDigit(c: char)
  {
    ('0' <= c <= '9') || ('a' <= c <= 'f') || ('A' <= c <= 'F')
  }

  /** `/^[a-fA-F0-9]{5,40}$/`: five to forty hex digits, in either case. */
  predicate IsHexSha(s: string)
  {
    5 <= |s| <= 40 && forall i :: 0 <= i < |s| ==> IsHexDigit(s[i])
  }

  /** `parsePath`, from the parsed URL's hostname and pathname. The pathname's pieces are
      an ignored head, owner, repository, the word `blob`, the sha, and at least one piece
      of file path. */
  function ParsePath(hostname: string, pathname: string): (r: Result<File, ParseError>)
    ensures hostname != "github.com" ==> r == Failure(NotGithubUrl(hostname))
    ensures hostname == "github.com" && r.Failure? ==> r.error == NotGithubPermalink(pathname)
    ensures hostname == "github.com" ==>
      var p := Split(pathname, Separator);
      (r.Success? <==> |p| >= 6 && p[3] == "blob" && IsHexSha(p[4]))
    ensures r.Success? ==>
      && IsHexSha(r.value.commitSha)
      && Separator !in r.value.owner && Separator !in r.value.repo
  {
    if hostname != "github.com" then
      Failure(NotGithubUrl(hostname))
    else
      var pieces := Split(pathname, Separator);
      // a missing piece is `undefined`: it is not `blob`, not hex, and leaves no file path
      if |pieces| < 6 || pieces[3] != "blob" || !IsHexSha(pieces[4]) then
        Failure(NotGithubPermalink(pathname))
      else
        Success(File(pieces[1], pieces[2], pieces[4], Join(pieces[5..], Separator)))
  }

  /** `pathForFile`: owner, repository, the word `blob`, the sha and the file path, joined
      by slashes. */
  function PathForFile(file: File): string
  {
    Join([file.owner, file.repo, "blob", file.commitSha, file.path], Separator)
  }

  /** Joining a list whose last piece is itself a join is joining the flattened list. */
  lemma {:induction false} JoinFlatten(prefix: seq<string>, rest: seq<string>, sep: char)
    requires |rest| >= 1
    ensures Join(prefix + [Join(rest, sep)], sep) == Join(prefix + rest, sep)
    decreases |prefix|
  {
    if prefix == [] {
      assert prefix + [Join(rest, sep)] == [Join(rest, sep)];
      assert prefix + rest == rest;
    } else {
      JoinFlatten(prefix[1..], rest, sep);
      assert (prefix + [Join(rest, sep)])[1..] == prefix[1..] + [Join(rest, sep)];
      assert (prefix + rest)[1..] == prefix[1..] + rest;
      JoinCons(prefix + [Join(rest, sep)], sep);
      JoinCons(prefix + rest, sep);
    }
  }

  /** A slash and `PathForFile` is the join of an empty head, the owner, the repository,
      `blob`, the sha and the pieces of the file path. */
  lemma {:induction false} PathForFilePieces(file: File)
    ensures "/" + PathForFile(file)
            == Join(["", file.owner, file.repo, "blob", file.commitSha] + Split(file.path, Separator), Separator)
  {
    var head := ["", file.owner, file.repo, "blob", file.commitSha];
    var rest := Split(file.path, Separator);
    JoinCons(head + [file.path], Separator);
    assert (head + [file.path])[1..] == [file.owner, file.repo, "blob", file.commitSha, file.path];
    JoinFlatten(head, rest, Separator);
  }

  /** Every file with a slash-free owner and repository and a valid sha is read back
      from the pathname `pathForFile` writes. */
  lemma {:induction false} ParsePathForFile(file: File)
    requires Separator !in file.owner && Separator !in file.repo
    requires IsHexSha(file.commitSha)
    ensures ParsePath("github.com", "/" + PathForFile(file)) == Success(file)
  {
    var rest := Split(file.path, Separator);
    var pieces := ["", file.owner, file.repo, "blob", file.commitSha] + rest;
    assert forall i :: 0 <= i < |pieces| ==> Separator !in pieces[i] by {
      forall i | 0 <= i < |pieces| ensures Separator !in pieces[i] {
        if i >= 5 {
          assert pieces[i] == rest[i - 5];
        }
      }
    }
    PathForFilePieces(file);
    SplitJoin(pieces, Separator);
    assert pieces[5..] == rest;
  }

  /** Conversely, a parsed pathname is its ignored head, a slash, and `pathForFile` of
      the parsed file. */
  lemma {:induction false} PathForParsedFile(pathname: string, file: File)
    requires ParsePath("github.com", pathname) == Success(file)
    ensures Split(pathname, Separator)[0] + "/" + PathForFile(file) == pathname
  {
    var pieces := Split(pathname, Separator);
    var head := pieces[..5];
    var flat := head + [Join(pieces[5..], Separator)];
    assert head + pieces[5..] == pieces;
    JoinFlatten(head, pieces[5..], Separator);
    JoinCons(flat, Separator);
    assert flat[1..] == [file.owner, file.repo, "blob", file.commitSha, file.path];
  }
}
