/** Which metadata locations a commit can derive a successor from. */
module MetadataNames {
  import opened Outcomes
  import opened Literals

  datatype Reason = NotSlashSeparated | NotInMetadata | BadName

  const SUFFIX: string := ".metadata.json"
  const GZIP: string := ".gz"

  // ---- library splits ----

  predicate EndsWith(s: string, part: string) { |part| <= |s| && s[|s| - |part|..] == part }

  function StripSuffix(s: string, part: string): (r: Option<string>)
    ensures r.Some? ==> s == r.value + part
  {
    if EndsWith(s, part) then Some(s[..|s| - |part|]) else None
  }

  /** Around the first byte of its kind. */
  function SplitOnce(s: string, c: char): (r: Option<(string, string)>)
    ensures r.Some? ==> s == r.value.0 + [c] + r.value.1 && c !in r.value.0
    ensures r.None? ==> c !in s
  {
    if s == "" then None
    else if s[0] == c then Some(("", s[1..]))
    else
      match SplitOnce(s[1..], c)
      case None => None
      case Some((before, after)) => Some(([s[0]] + before, after))
  }

  /** Around the last byte of its kind. */
  function SplitLast(s: string, c: char): (r: Option<(string, string)>)
    ensures r.Some? ==> s == r.value.0 + [c] + r.value.1 && c !in r.value.1
    ensures r.None? ==> c !in s
  {
    if s == "" then None
    else
      var last := |s| - 1;
      if s[last] == c then Some((s[..last], ""))
      else
        match SplitLast(s[..last], c)
        case None => assert s == s[..last] + [s[last]]; None
        case Some((before, after)) => Some((before, after + [s[last]]))
  }

  lemma {:induction false} SplitOnceIs(before: string, c: char, after: string)
    requires c !in before
    ensures SplitOnce(before + [c] + after, c) == Some((before, after))
  {
    var s := before + [c] + after;
    if before == "" {
      assert s[1..] == after;
    } else {
      SplitOnceIs(before[1..], c, after);
      assert s[1..] == before[1..] + [c] + after && s[0] == before[0];
      assert before == [before[0]] + before[1..];
    }
  }

  lemma {:induction false} SplitLastIs(before: string, c: char, after: string)
    requires c !in after
    ensures SplitLast(before + [c] + after, c) == Some((before, after))
    decreases |after|
  {
    var s := before + [c] + after;
    if after == "" {
      assert s[..|s| - 1] == before;
    } else {
      var rest := after[..|after| - 1];
      SplitLastIs(before, c, rest);
      assert s[..|s| - 1] == before + [c] + rest && after == rest + [after[|after| - 1]];
    }
  }

  // ---- the checks ----

  /** A version that parses as a signed integer of 32 bits. */
  predicate IsVersion(s: string) { ParseInteger(s).Some? && FitsInt32(ParseInteger(s).value) }

  predicate NameIsCommittable(name: string, uuid: string -> bool) {
    match StripSuffix(name, SUFFIX)
    case None => false
    case Some(stripped) =>
      var bare := match StripSuffix(stripped, GZIP) case Some(s) => s case None => stripped;
      match SplitOnce(bare, '-')
      case None => false
      case Some((version, id)) => IsVersion(version) && uuid(id)
  }

  function UncommittableBecause(location: string, uuid: string -> bool): Option<Reason> {
    match SplitLast(location, '/')
    case None => Some(NotSlashSeparated)
    case Some((dir, file)) =>
      if !EndsWith(dir, "/metadata") then Some(NotInMetadata)
      else if !NameIsCommittable(file, uuid) then Some(BadName)
      else None
  }

  // ---- the convention ----

  /** `<version>-<uuid>.metadata.json`, perhaps gzipped. */
  function FileName(version: string, id: string, gzipped: bool): string {
    version + ['-'] + id + (if gzipped then ".gz" else "") + ".metadata.json"
  }

  /** An integer of 32 bits, as it is written, with or without its sign. */
  ghost predicate WritesVersion(s: string) {
    exists n :: IsWritten(s, n) && -0x8000_0000 <= n < 0x8000_0000
  }

  lemma VersionExactly(s: string)
    ensures IsVersion(s) <==> WritesVersion(s)
  {
    if IsVersion(s) {
      ParsesExactly(s, ParseInteger(s).value);
    }
    if n :| IsWritten(s, n) && -0x8000_0000 <= n < 0x8000_0000 {
      ParsesExactly(s, n);
    }
  }

  ghost predicate Conforms(name: string, uuid: string -> bool) {
    exists version, id, gzipped ::
      && name == FileName(version, id, gzipped)
      && WritesVersion(version) && '-' !in version && uuid(id) && (gzipped || !EndsWith(id, ".gz"))
  }

  lemma StripIs(s: string, part: string)
    ensures StripSuffix(s + part, part) == Some(s)
  {
    assert (s + part)[|s|..] == part && (s + part)[..|s|] == s;
  }

  lemma NoGzip(version: string, id: string)
    requires !EndsWith(id, GZIP)
    ensures StripSuffix(version + ['-'] + id, GZIP) == None
  {
    var s := version + ['-'] + id;
    if |id| >= 3 {
      assert id[|id| - 3..] == s[|s| - 3..];
    } else if |s| >= 3 {
      var k := 2 - |id|;
      assert s[|s| - 3..][k] == s[|version|] == '-';
      assert GZIP[k] != '-';
    }
  }

  /** The name is committable exactly when it follows the convention. */
  lemma CommittableNames(name: string, uuid: string -> bool)
    ensures NameIsCommittable(name, uuid) <==> Conforms(name, uuid)
  {
    if NameIsCommittable(name, uuid) {
      var stripped := StripSuffix(name, SUFFIX).value;
      var gzip := StripSuffix(stripped, GZIP);
      var bare := if gzip.Some? then gzip.value else stripped;
      var (version, id) := SplitOnce(bare, '-').value;
      assert name == FileName(version, id, gzip.Some?);
      VersionExactly(version);
      if gzip.None? {
        EndOfTail(version + ['-'], id);
      }
    }
    if Conforms(name, uuid) {
      var version, id, gzipped :|
        && name == FileName(version, id, gzipped)
        && WritesVersion(version) && '-' !in version && uuid(id) && (gzipped || !EndsWith(id, ".gz"));
      VersionExactly(version);
      var bare := version + ['-'] + id;
      var stripped := bare + (if gzipped then GZIP else "");
      StripIs(stripped, SUFFIX);
      if gzipped {
        StripIs(bare, GZIP);
      } else {
        assert stripped == bare;
        NoGzip(version, id);
      }
      SplitOnceIs(version, '-', id);
    }
  }

  lemma EndOfTail(head: string, tail: string)
    ensures EndsWith(tail, GZIP) ==> EndsWith(head + tail, GZIP)
  {
    if EndsWith(tail, GZIP) {
      assert (head + tail)[|head + tail| - 3..] == tail[|tail| - 3..];
    }
  }

  /** A file of the convention in a directory named `metadata`. */
  ghost predicate ConformingLocation(location: string, uuid: string -> bool) {
    exists dir, file :: location == dir + "/metadata" + ['/'] + file && '/' !in file && Conforms(file, uuid)
  }

  /** A file in a directory named `metadata`. */
  ghost predicate InMetadata(location: string) {
    exists dir, file :: location == dir + "/metadata" + ['/'] + file && '/' !in file
  }

  lemma DirectoryExactly(location: string, dir: string, file: string)
    requires location == dir + ['/'] + file && '/' !in file
    ensures InMetadata(location) <==> EndsWith(dir, "/metadata")
  {
    if EndsWith(dir, "/metadata") {
      assert dir == dir[..|dir| - 9] + "/metadata";
    }
    if d, f :| location == d + "/metadata" + ['/'] + f && '/' !in f {
      SplitLastIs(dir, '/', file);
      SplitLastIs(d + "/metadata", '/', f);
      assert (d + "/metadata")[|d|..] == "/metadata";
    }
  }

  /** A location is refused exactly when it does not follow the convention, with the first reason that holds. */
  lemma CommittableLocations(location: string, uuid: string -> bool)
    ensures UncommittableBecause(location, uuid) == None <==> ConformingLocation(location, uuid)
    ensures UncommittableBecause(location, uuid) == Some(NotSlashSeparated) <==> '/' !in location
    ensures UncommittableBecause(location, uuid) == Some(NotInMetadata) <==> '/' in location && !InMetadata(location)
  {
    var split := SplitLast(location, '/');
    if split.Some? {
      var (dir, file) := split.value;
      CommittableNames(file, uuid);
      DirectoryExactly(location, dir, file);
      if EndsWith(dir, "/metadata") {
        assert dir == dir[..|dir| - 9] + "/metadata";
        assert location == dir[..|dir| - 9] + "/metadata" + ['/'] + file;
      }
      assert '/' in location by { assert location[|dir|] == '/'; }
    }
    if ConformingLocation(location, uuid) {
      var dir, file :| location == dir + "/metadata" + ['/'] + file && '/' !in file && Conforms(file, uuid);
      SplitLastIs(dir + "/metadata", '/', file);
      assert (dir + "/metadata")[|dir|..] == "/metadata";
      CommittableNames(file, uuid);
    }
  }

  /** The kinds whose commits work out a new location from the current one, and so need that one to follow the convention. */
  predicate DerivesNextLocation(kind: string) { kind == "memory" || kind == "glue" }
}
