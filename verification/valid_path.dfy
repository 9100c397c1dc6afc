/**
 `get_valid_path`: join a file name onto a parent directory, replacing the
 name by its sanitized form when the platform rejects it, and leaving an
 audit note `<sanitized>_changed.txt` in the parent directory the first time
 that sanitized name is produced.

 The platform's filename rules come in as two total functions, so nothing
 is assumed about them. The filesystem is a map from path to file content.
 */
module ValidPath {
  import opened PathNames

  /** Files by path, with their text. Directories are not modelled. */
  type FileSystem = map<string, string>

  /** The platform's filename rules, as applied with platform='auto': whether
      a name is acceptable, and the replacement for one that is not. The
      replacement is not assumed to be acceptable itself. */
  datatype Platform = Platform(isValidFilename: string -> bool, sanitizeFilename: string -> string)

  /** Outcome of one call: the path returned and the filesystem afterwards. */
  datatype Resolved = Resolved(path: string, fs: FileSystem)

  /** Outcome of a series of calls: the paths returned, in order, and the
      filesystem afterwards. */
  datatype Batch = Batch(paths: seq<string>, fs: FileSystem)

  /** Path of the audit note for a sanitized name. */
  function MarkerPath(parent: string, sanitized: string): string
  {
    Join(parent, sanitized + "_changed.txt")
  }

  /** Text of the audit note. */
  function ChangeNote(original: string, sanitized: string): string
  {
    "Name '" + original + "' changed to '" + sanitized + "'"
  }

  /** The name that ends up joined onto the parent. */
  function ResolvedName(plat: Platform, fn: string): string
  {
    if plat.isValidFilename(fn) then fn else plat.sanitizeFilename(fn)
  }

  /** `after` keeps every file of `before` with the same content, and any file
      it adds has a path in `allowed`. */
  ghost predicate OnlyCreates(before: FileSystem, after: FileSystem, allowed: set<string>)
  {
    && (forall p :: p in before ==> p in after && after[p] == before[p])
    && (forall p :: p in after && p !in before ==> p in allowed)
  }

  /** Creating files in two rounds creates only what either round may. */
  lemma OnlyCreatesTrans(a: FileSystem, b: FileSystem, c: FileSystem, s: set<string>, t: set<string>, u: set<string>)
    requires OnlyCreates(a, b, s) && OnlyCreates(b, c, t) && s + t <= u
    ensures OnlyCreates(a, c, u)
  {
  }

  /** `get_valid_path(parent, fn)`. */
  function GetValidPath(plat: Platform, fs: FileSystem, parent: string, fn: string): (r: Resolved)
    ensures plat.isValidFilename(fn) ==> r.path == Join(parent, fn) && r.fs == fs
    ensures !plat.isValidFilename(fn) ==>
              var s := plat.sanitizeFilename(fn);
              var marker := MarkerPath(parent, s);
              && r.path == Join(parent, s)
              && marker in r.fs
              && (marker in fs ==> r.fs == fs)
              && (marker !in fs ==> r.fs[marker] == ChangeNote(fn, s))
    ensures OnlyCreates(fs, r.fs, {MarkerPath(parent, plat.sanitizeFilename(fn))})
  {
    if plat.isValidFilename(fn) then
      Resolved(Join(parent, fn), fs)
    else
      var s := plat.sanitizeFilename(fn);
      var marker := MarkerPath(parent, s);
      if marker in fs then Resolved(Join(parent, s), fs)
      else Resolved(Join(parent, s), fs[marker := ChangeNote(fn, s)])
  }

  /** Repeating a call with the same arguments returns the same path and
      writes nothing. */
  lemma GetValidPathIdempotent(plat: Platform, fs: FileSystem, parent: string, fn: string)
    ensures var first := GetValidPath(plat, fs, parent, fn);
            GetValidPath(plat, first.fs, parent, fn) == first
  {
  }

  /** The audit notes a series of names may leave behind: one per rejected
      name, at the path of its sanitized form. */
  ghost function Markers(plat: Platform, parent: string, names: seq<string>): set<string>
  {
    set i | 0 <= i < |names| && !plat.isValidFilename(names[i]) :: MarkerPath(parent, plat.sanitizeFilename(names[i]))
  }

  /** `get_valid_path(parent, fn)` for each `fn` of `names` in turn, on the
      same parent directory. */
  function GetValidPaths(plat: Platform, fs: FileSystem, parent: string, names: seq<string>): (r: Batch)
    ensures |r.paths| == |names|
    ensures forall i :: 0 <= i < |names| ==> r.paths[i] == Join(parent, ResolvedName(plat, names[i]))
  {
    if names == [] then Batch([], fs)
    else
      var init := names[..|names| - 1];
      var before := GetValidPaths(plat, fs, parent, init);
      var last := GetValidPath(plat, before.fs, parent, names[|names| - 1]);
      assert forall i :: 0 <= i < |init| ==> names[i] == init[i];
      Batch(before.paths + [last.path], last.fs)
  }

  /** A series of calls keeps every existing file as it was. */
  lemma {:induction false} GetValidPathsKeepsFiles(plat: Platform, fs: FileSystem, parent: string, names: seq<string>)
    ensures var after := GetValidPaths(plat, fs, parent, names).fs;
            forall p :: p in fs ==> p in after && after[p] == fs[p]
  {
    if names != [] {
      GetValidPathsKeepsFiles(plat, fs, parent, names[..|names| - 1]);
    }
  }

  /** After a series of calls the note of every rejected name exists. */
  lemma {:induction false} GetValidPathsNotesEveryRename(plat: Platform, fs: FileSystem, parent: string, names: seq<string>)
    ensures var after := GetValidPaths(plat, fs, parent, names).fs;
            forall i :: 0 <= i < |names| && !plat.isValidFilename(names[i]) ==>
              MarkerPath(parent, plat.sanitizeFilename(names[i])) in after
  {
    if names != [] {
      var init := names[..|names| - 1];
      var fn := names[|names| - 1];
      var before := GetValidPaths(plat, fs, parent, init).fs;
      var last := GetValidPath(plat, before, parent, fn);
      assert GetValidPaths(plat, fs, parent, names).fs == last.fs;
      GetValidPathsNotesEveryRename(plat, fs, parent, init);
      forall i | 0 <= i < |names| && !plat.isValidFilename(names[i])
        ensures MarkerPath(parent, plat.sanitizeFilename(names[i])) in last.fs
      {
        if i < |init| {
          assert names[i] == init[i];
        }
      }
    }
  }

  /** A series of calls creates no file other than the audit notes of the
      rejected names. */
  lemma {:induction false} GetValidPathsOnlyCreatesMarkers(plat: Platform, fs: FileSystem, parent: string, names: seq<string>)
    ensures OnlyCreates(fs, GetValidPaths(plat, fs, parent, names).fs, Markers(plat, parent, names))
  {
    if names != [] {
      var init := names[..|names| - 1];
      var fn := names[|names| - 1];
      var before := GetValidPaths(plat, fs, parent, init);
      GetValidPathsOnlyCreatesMarkers(plat, fs, parent, init);
      assert forall i :: 0 <= i < |init| ==> names[i] == init[i];
      assert Markers(plat, parent, init) <= Markers(plat, parent, names);
      var lastMarker := MarkerPath(parent, plat.sanitizeFilename(fn));
      if plat.isValidFilename(fn) {
        assert GetValidPaths(plat, fs, parent, names).fs == before.fs;
      } else {
        assert lastMarker in Markers(plat, parent, names);
        OnlyCreatesTrans(fs, before.fs, GetValidPaths(plat, fs, parent, names).fs,
                         Markers(plat, parent, init), {lastMarker}, Markers(plat, parent, names));
      }
    }
  }

  /** Once the note of every rejected name exists, a series of calls writes
      nothing. */
  lemma {:induction false} GetValidPathsWritesNothingWhenNoted(plat: Platform, fs: FileSystem, parent: string, names: seq<string>)
    requires forall i :: 0 <= i < |names| && !plat.isValidFilename(names[i]) ==>
               MarkerPath(parent, plat.sanitizeFilename(names[i])) in fs
    ensures GetValidPaths(plat, fs, parent, names).fs == fs
  {
    if names != [] {
      var init := names[..|names| - 1];
      assert forall i :: 0 <= i < |init| ==> names[i] == init[i];
      GetValidPathsWritesNothingWhenNoted(plat, fs, parent, init);
    }
  }

  /** Repeating a whole series of calls returns the same paths and leaves
      the filesystem as the first series left it. */
  lemma GetValidPathsIdempotent(plat: Platform, fs: FileSystem, parent: string, names: seq<string>)
    ensures var first := GetValidPaths(plat, fs, parent, names);
            GetValidPaths(plat, first.fs, parent, names) == first
  {
    var first := GetValidPaths(plat, fs, parent, names);
    GetValidPathsNotesEveryRename(plat, fs, parent, names);
    GetValidPathsWritesNothingWhenNoted(plat, first.fs, parent, names);
    var second := GetValidPaths(plat, first.fs, parent, names);
    assert second.paths == first.paths;
  }

  /** `j` is the first rejected name of `names` whose note goes to `marker`. */
  ghost predicate FirstToRename(plat: Platform, parent: string, names: seq<string>, marker: string, j: int)
  {
    && 0 <= j < |names|
    && !plat.isValidFilename(names[j])
    && MarkerPath(parent, plat.sanitizeFilename(names[j])) == marker
    && forall i :: 0 <= i < j && !plat.isValidFilename(names[i]) ==>
         MarkerPath(parent, plat.sanitizeFilename(names[i])) != marker
  }

  /** The last name of a series is the first to rename to `marker` when
      no earlier name left a note there. */
  lemma FirstToRenameLast(plat: Platform, fs: FileSystem, parent: string, names: seq<string>, marker: string)
    requires names != []
    requires var fn := names[|names| - 1];
             !plat.isValidFilename(fn) && MarkerPath(parent, plat.sanitizeFilename(fn)) == marker
    requires marker !in GetValidPaths(plat, fs, parent, names[..|names| - 1]).fs
    ensures FirstToRename(plat, parent, names, marker, |names| - 1)
  {
    var init := names[..|names| - 1];
    GetValidPathsNotesEveryRename(plat, fs, parent, init);
    assert forall i :: 0 <= i < |init| ==> names[i] == init[i];
  }

  /** Being first among a prefix of the names is being first among them all. */
  lemma FirstToRenamePrefix(plat: Platform, parent: string, names: seq<string>, k: nat, marker: string, j: int)
    requires k <= |names|
    requires FirstToRename(plat, parent, names[..k], marker, j)
    ensures FirstToRename(plat, parent, names, marker, j)
  {
    assert forall i :: 0 <= i < k ==> names[..k][i] == names[i];
  }

  /** Every note a series of calls creates records the first rejected name
      whose note goes there: later names sanitized to the same name leave no
      trace. */
  lemma {:induction false} GetValidPathsNotesFirstRename(plat: Platform, fs: FileSystem, parent: string, names: seq<string>)
    ensures var after := GetValidPaths(plat, fs, parent, names).fs;
            forall p :: p in after && p !in fs ==>
              exists j :: FirstToRename(plat, parent, names, p, j)
                          && after[p] == ChangeNote(names[j], plat.sanitizeFilename(names[j]))
  {
    if names != [] {
      var k := |names| - 1;
      var init := names[..k];
      var before := GetValidPaths(plat, fs, parent, init).fs;
      var after := GetValidPaths(plat, fs, parent, names).fs;
      GetValidPathsNotesFirstRename(plat, fs, parent, init);
      forall p | p in after && p !in fs
        ensures exists j :: FirstToRename(plat, parent, names, p, j)
                            && after[p] == ChangeNote(names[j], plat.sanitizeFilename(names[j]))
      {
        if p in before {
          var j :| FirstToRename(plat, parent, init, p, j)
                   && before[p] == ChangeNote(init[j], plat.sanitizeFilename(init[j]));
          FirstToRenamePrefix(plat, parent, names, k, p, j);
          assert init[j] == names[j];
        } else {
          FirstToRenameLast(plat, fs, parent, names, p);
        }
      }
    }
  }

  /** Two different names that sanitize alike share one note, which records
      only the first of them. */
  lemma SharedNoteRecordsFirstOnly(plat: Platform, fs: FileSystem, parent: string, a: string, b: string)
    requires !plat.isValidFilename(a) && !plat.isValidFilename(b)
    requires plat.sanitizeFilename(a) == plat.sanitizeFilename(b)
    requires MarkerPath(parent, plat.sanitizeFilename(a)) !in fs
    ensures var after := GetValidPaths(plat, fs, parent, [a, b]).fs;
            after[MarkerPath(parent, plat.sanitizeFilename(a))] == ChangeNote(a, plat.sanitizeFilename(a))
  {
    var names := [a, b];
    var s := plat.sanitizeFilename(a);
    var marker := MarkerPath(parent, s);
    assert names[..1] == [a];
    assert [a][..0] == [];
    assert GetValidPaths(plat, fs, parent, []).fs == fs;
    var first := GetValidPaths(plat, fs, parent, [a]);
    assert first.fs == GetValidPath(plat, fs, parent, a).fs;
    assert first.fs[marker] == ChangeNote(a, s);
    assert GetValidPaths(plat, fs, parent, names).fs == GetValidPath(plat, first.fs, parent, b).fs;
  }
}
