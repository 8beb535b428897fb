/** Package ids `label:hash`, the file a peer stores a package in, and the pattern that reads it back. */
module ChaincodeNames {
  import opened Text

  /** `hash` is undefined when the id holds no colon. */
  datatype PackageID = PackageID(name: string, hash: Option<string>)

  function ParsePackageID(id: string): PackageID {
    var parts := Split(id, ':');
    PackageID(parts[0], if |parts| > 1 then Some(parts[1]) else None)
  }

  predicate IsHexDigit(c: char) { IsDigit(c) || 'a' <= c <= 'f' }

  predicate Digest(s: string) { |s| == 64 && forall c | c in s :: IsHexDigit(c) }

  /** The characters of a digest, written out. */
  lemma DigestExact(s: string)
    ensures Digest(s) <==>
              && |s| == 64
              && forall c | c in s ::
                   c in {'0', '1', '2', '3', '4', '5', '6', '7', '8', '9', 'a', 'b', 'c', 'd', 'e', 'f'}
  {
  }

  const EXTENSION := ".tar.gz"

  datatype FileMatch = FileMatch(name: string, hash: string)

  /** `packageFileMatcher`: `/^(.+)[.]([0-9a-f]{64})[.]tar[.]gz$/`, the name taken greedily. */
  function MatchPackageFile(file: string): Option<FileMatch> {
    var n := |file| - |EXTENSION| - 65;
    if n >= 1
       && file[n + 65..] == EXTENSION
       && Digest(file[n + 1..n + 65])
       && file[n] == '.'
       && (forall c | c in file[..n] :: !IsLineTerminator(c))
    then Some(FileMatch(file[..n], file[n + 1..n + 65]))
    else None
  }

  function PackageFile(name: string, hash: string): string { name + "." + hash + EXTENSION }

  /** The digest and the extension have fixed lengths, so dots and digests in the name do no harm. */
  lemma FilePatternExact(file: string, name: string, hash: string)
    ensures MatchPackageFile(file) == Some(FileMatch(name, hash))
            <==> file == name + "." + hash + ".tar.gz" && name != "" && Digest(hash)
                 && forall c | c in name :: !IsLineTerminator(c)
  {
    assert PackageFile(name, hash) == name + "." + hash + ".tar.gz";
    var n := |file| - |EXTENSION| - 65;
    if file == PackageFile(name, hash) && Digest(hash) {
      assert n == |name| && file[..n] == name && file[n + 1..n + 65] == hash && file[n + 65..] == EXTENSION;
    }
    if MatchPackageFile(file) == Some(FileMatch(name, hash)) {
      assert file == file[..n] + [file[n]] + file[n + 1..n + 65] + file[n + 65..];
    }
  }

  /** `id.replace(':', '.')` replaces the first colon only. */
  function ReplaceColon(id: string): string {
    if id == "" then "" else if id[0] == ':' then "." + id[1..] else [id[0]] + ReplaceColon(id[1..])
  }

  /** The file name under which a peer stores the package of an id. */
  function StoredFile(id: string): string { ReplaceColon(id) + EXTENSION }

  lemma {:induction false} ReplaceFirstColon(a: string, b: string)
    requires ':' !in a
    ensures ReplaceColon(a + ":" + b) == a + "." + b
  {
    if a == "" {
      assert (a + ":" + b)[1..] == b;
    } else {
      assert (a + ":" + b)[1..] == a[1..] + ":" + b;
      ReplaceFirstColon(a[1..], b);
    }
  }

  lemma {:induction false} NoColonStays(a: string)
    requires ':' !in a
    ensures ReplaceColon(a) == a
  {
    if a != "" {
      NoColonStays(a[1..]);
      assert a == [a[0]] + a[1..];
    }
  }

  function PackageIDText(name: string, hash: string): string { name + ":" + hash }

  lemma ParseTextExact(name: string, hash: string)
    ensures ParsePackageID(PackageIDText(name, hash)) == PackageID(name, Some(hash))
            <==> ':' !in name && ':' !in hash
  {
    var id := PackageIDText(name, hash);
    SplitHasNo(id, ':');
    var parts := Split(id, ':');
    if ':' !in name {
      SplitAtSeparator(name, ':', hash);
      if ':' !in hash {
        SplitWhole(hash, ':');
      }
    }
    if ParsePackageID(id) == PackageID(name, Some(hash)) {
      assert parts[0] in parts && parts[1] in parts;
    }
  }

  /** Without a colon the id is all name; a second colon ends the hash. */
  lemma ColonsDecide(name: string, hash: string, more: string)
    requires ':' !in name && ':' !in hash
    ensures ParsePackageID(name) == PackageID(name, None)
    ensures ParsePackageID(name + ":" + (hash + ":" + more)) == PackageID(name, Some(hash))
  {
    SplitWhole(name, ':');
    SplitAtSeparator(name, ':', hash + ":" + more);
    SplitAtSeparator(hash, ':', more);
  }

  /**
   The whole naming round trip, for every label and every hash: id and stored file both read back
   as the same label and hash exactly when the label is non-empty, without colons and line breaks,
   and the hash is a digest.
   */
  lemma PackageNamingRoundTrip(name: string, hash: string)
    ensures var id := PackageIDText(name, hash);
            && ParsePackageID(id) == PackageID(name, Some(hash))
            && MatchPackageFile(StoredFile(id)) == Some(FileMatch(name, hash))
            <==>
            && name != "" && ':' !in name && (forall c | c in name :: !IsLineTerminator(c)) && Digest(hash)
  {
    ParseTextExact(name, hash);
    FilePatternExact(StoredFile(PackageIDText(name, hash)), name, hash);
    if ':' !in name {
      ReplaceFirstColon(name, hash);
    }
    assert !IsHexDigit(':');
  }
}
