/**
 * The directory responder: reads the directory's entries, stats each one and
 * sorts it into the files or the other entries ("dirs") in `readdir` order, then
 * renders the listing page. Each entry is stat'ed at `join(parent + [name])`; the
 * handler passes the server root and the raw, undecoded request URL as `parent`.
 */
module DirResponder {
  import opened Wrappers
  import opened Http

  /** Where an entry named `name` is stat'ed. */
  function EntryPath(srv: Server, parent: seq<string>, name: string): (path: string) {
    srv.join(parent + [name])
  }

  predicate IsFileEntry(srv: Server, fs: FileSystem, parent: seq<string>, name: string) {
    var st := Stat(fs, EntryPath(srv, parent, name));
    st.Some? && st.value.File?
  }

  predicate IsOtherEntry(srv: Server, fs: FileSystem, parent: seq<string>, name: string) {
    var st := Stat(fs, EntryPath(srv, parent, name));
    st.Some? && !st.value.File?
  }

  /**
   * The partition the listing loop computes over `entries`, taken in order: each entry
   * whose stat is a regular file is appended to `files`, each other one to `dirs`; the
   * first entry whose stat fails aborts the whole listing.
   */
  function Partition(srv: Server, fs: FileSystem, parent: seq<string>, entries: seq<string>): (r: Result<Listing, Failure>)
    decreases |entries|
  {
    if entries == [] then Ok(Listing([], []))
    else
      var name := entries[|entries| - 1];
      match Partition(srv, fs, parent, entries[..|entries| - 1])
      case Fail(f) => Fail(f)
      case Ok(l) =>
        var path := EntryPath(srv, parent, name);
        match Stat(fs, path)
        case None => Fail(EntryStatFailed(path))
        case Some(node) =>
          if node.File? then Ok(Listing(l.files + [name], l.dirs))
          else Ok(Listing(l.files, l.dirs + [name]))
  }

  /** The listing response for the directory at `currentPath`. */
  function ListDir(srv: Server, fs: FileSystem, parent: seq<string>, currentPath: string): (r: Outcome) {
    match ReadDir(fs, currentPath)
    case None => Fail(ReadDirFailed(currentPath))
    case Some(entries) =>
      match Partition(srv, fs, parent, entries)
      case Fail(f) => Fail(f)
      case Ok(paths) =>
        match srv.render(Payload(srv.runAddress, srv.srcPath, paths))
        case None => Fail(RenderFailed)
        case Some(html) => Ok(Initial.(body := html))
  }

  /** `a` is `b` with some elements left out, the rest kept in order. */
  predicate IsSubsequence(a: seq<string>, b: seq<string>)
    decreases |b|
  {
    if a == [] then true
    else if b == [] then false
    else (a[|a| - 1] == b[|b| - 1] && IsSubsequence(a[..|a| - 1], b[..|b| - 1]))
         || IsSubsequence(a, b[..|b| - 1])
  }

  lemma SubsequenceExtend(a: seq<string>, b: seq<string>, x: string)
    requires IsSubsequence(a, b)
    ensures IsSubsequence(a, b + [x]) && IsSubsequence(a + [x], b + [x])
  {
    assert (b + [x])[..|b|] == b;
    assert (a + [x])[..|a|] == a;
  }

  /** Once a prefix of the entries fails, the whole listing fails the same way. */
  lemma {:induction false} FailurePersists(srv: Server, fs: FileSystem, parent: seq<string>, entries: seq<string>, i: nat)
    requires i <= |entries|
    requires Partition(srv, fs, parent, entries[..i]).Fail?
    ensures Partition(srv, fs, parent, entries) == Partition(srv, fs, parent, entries[..i])
    decreases |entries|
  {
    if i == |entries| {
      assert entries[..i] == entries;
    } else {
      var init := entries[..|entries| - 1];
      assert init[..i] == entries[..i];
      FailurePersists(srv, fs, parent, init, i);
    }
  }

  /** Every entry lands in exactly one of the two lists: together they hold the entries, with multiplicity. */
  lemma {:induction false} PartitionCovers(srv: Server, fs: FileSystem, parent: seq<string>, entries: seq<string>)
    requires Partition(srv, fs, parent, entries).Ok?
    ensures
      var l := Partition(srv, fs, parent, entries).value;
      && multiset(l.files) + multiset(l.dirs) == multiset(entries)
      && |l.files| + |l.dirs| == |entries|
    decreases |entries|
  {
    if entries != [] {
      var n := |entries| - 1;
      var init, last := entries[..n], entries[n];
      PartitionStep(srv, fs, parent, entries);
      PartitionCovers(srv, fs, parent, init);
      assert init + [last] == entries;
      assert multiset(entries) == multiset(init) + multiset{last};
      var l := Partition(srv, fs, parent, entries).value;
      assert |multiset(l.files)| + |multiset(l.dirs)| == |multiset(entries)|;
    }
  }

  /** `files` holds only regular files and `dirs` only entries that stat'ed as something else. */
  lemma {:induction false} PartitionClassifies(srv: Server, fs: FileSystem, parent: seq<string>, entries: seq<string>)
    requires Partition(srv, fs, parent, entries).Ok?
    ensures
      var l := Partition(srv, fs, parent, entries).value;
      && (forall x :: x in l.files ==> IsFileEntry(srv, fs, parent, x))
      && (forall x :: x in l.dirs ==> IsOtherEntry(srv, fs, parent, x))
    decreases |entries|
  {
    if entries != [] {
      PartitionStep(srv, fs, parent, entries);
      PartitionClassifies(srv, fs, parent, entries[..|entries| - 1]);
    }
  }

  /** One step of the partition: the listing of the entries from the listing of all but the last. */
  lemma PartitionStep(srv: Server, fs: FileSystem, parent: seq<string>, entries: seq<string>)
    requires entries != []
    ensures
      var last := entries[|entries| - 1];
      var init := Partition(srv, fs, parent, entries[..|entries| - 1]);
      Partition(srv, fs, parent, entries) ==
        if init.Fail? then init
        else if EntryPath(srv, parent, last) !in fs then Fail(EntryStatFailed(EntryPath(srv, parent, last)))
        else if IsFileEntry(srv, fs, parent, last) then Ok(Listing(init.value.files + [last], init.value.dirs))
        else Ok(Listing(init.value.files, init.value.dirs + [last]))
  {
  }

  /** Both lists keep the `readdir` order: each is a subsequence of the entries. */
  lemma {:induction false} PartitionKeepsOrder(srv: Server, fs: FileSystem, parent: seq<string>, entries: seq<string>)
    requires Partition(srv, fs, parent, entries).Ok?
    ensures
      var l := Partition(srv, fs, parent, entries).value;
      IsSubsequence(l.files, entries) && IsSubsequence(l.dirs, entries)
    decreases |entries|
  {
    if entries != [] {
      var n := |entries| - 1;
      var init, last := entries[..n], entries[n];
      PartitionStep(srv, fs, parent, entries);
      PartitionKeepsOrder(srv, fs, parent, init);
      var l0 := Partition(srv, fs, parent, init).value;
      assert init + [last] == entries;
      SubsequenceExtend(l0.files, init, last);
      SubsequenceExtend(l0.dirs, init, last);
    }
  }

  /** `files` holds exactly the entries whose stat is a regular file, and `dirs` exactly the others. */
  lemma PartitionExact(srv: Server, fs: FileSystem, parent: seq<string>, entries: seq<string>)
    requires Partition(srv, fs, parent, entries).Ok?
    ensures
      var l := Partition(srv, fs, parent, entries).value;
      && (forall x :: x in l.files <==> x in entries && IsFileEntry(srv, fs, parent, x))
      && (forall x :: x in l.dirs <==> x in entries && !IsFileEntry(srv, fs, parent, x))
  {
    var l := Partition(srv, fs, parent, entries).value;
    PartitionCovers(srv, fs, parent, entries);
    PartitionClassifies(srv, fs, parent, entries);
    forall x
      ensures x in l.files <==> x in entries && IsFileEntry(srv, fs, parent, x)
      ensures x in l.dirs <==> x in entries && !IsFileEntry(srv, fs, parent, x)
    {
      assert x in entries <==> x in multiset(entries);
      assert x in l.files <==> x in multiset(l.files);
      assert x in l.dirs <==> x in multiset(l.dirs);
    }
  }

  /** The listing succeeds exactly when every entry can be stat'ed. */
  lemma {:induction false} PartitionOkIffAllExist(srv: Server, fs: FileSystem, parent: seq<string>, entries: seq<string>)
    ensures Partition(srv, fs, parent, entries).Ok? <==>
            forall x :: x in entries ==> EntryPath(srv, parent, x) in fs
    decreases |entries|
  {
    if entries != [] {
      var n := |entries| - 1;
      var init, last := entries[..n], entries[n];
      PartitionStep(srv, fs, parent, entries);
      PartitionOkIffAllExist(srv, fs, parent, init);
      assert init + [last] == entries;
      assert forall x :: x in entries <==> x in init || x == last;
    }
  }

  /** A failed listing names the first entry, in `readdir` order, that cannot be stat'ed. */
  lemma {:induction false} PartitionFailsAtFirstMissing(srv: Server, fs: FileSystem, parent: seq<string>, entries: seq<string>)
    requires Partition(srv, fs, parent, entries).Fail?
    ensures
      exists k :: 0 <= k < |entries|
        && Partition(srv, fs, parent, entries) == Fail(EntryStatFailed(EntryPath(srv, parent, entries[k])))
        && EntryPath(srv, parent, entries[k]) !in fs
        && forall j :: 0 <= j < k ==> EntryPath(srv, parent, entries[j]) in fs
    decreases |entries|
  {
    var n := |entries| - 1;
    var init, last := entries[..n], entries[n];
    PartitionStep(srv, fs, parent, entries);
    if Partition(srv, fs, parent, init).Fail? {
      PartitionFailsAtFirstMissing(srv, fs, parent, init);
      var k :| 0 <= k < |init|
        && Partition(srv, fs, parent, init) == Fail(EntryStatFailed(EntryPath(srv, parent, init[k])))
        && EntryPath(srv, parent, init[k]) !in fs
        && forall j :: 0 <= j < k ==> EntryPath(srv, parent, init[j]) in fs;
      assert init[k] == entries[k];
      assert forall j :: 0 <= j < k ==> init[j] == entries[j];
    } else {
      PartitionOkIffAllExist(srv, fs, parent, init);
      assert forall j :: 0 <= j < n ==> init[j] in init;
      assert forall j :: 0 <= j < n ==> init[j] == entries[j];
      assert Partition(srv, fs, parent, entries) == Fail(EntryStatFailed(EntryPath(srv, parent, entries[n])));
    }
  }

  /**
   * The listing loop: the entries of `currentPath` are stat'ed one by one and appended
   * to `files` or `dirs`; the result is the page rendered from the partition.
   */
  method RenderDir(srv: Server, fs: FileSystem, url: string, currentPath: string) returns (r: Outcome)
    ensures r == ListDir(srv, fs, [srv.runAddress, url], currentPath)
  {
    var parent := [srv.runAddress, url];
    var listed := ReadDir(fs, currentPath);
    if listed.None? {
      return Fail(ReadDirFailed(currentPath));
    }
    var entries := listed.value;
    var files: seq<string> := [];
    var dirs: seq<string> := [];
    for i := 0 to |entries|
      invariant Partition(srv, fs, parent, entries[..i]) == Ok(Listing(files, dirs))
    {
      var name := entries[i];
      var path := srv.join(parent + [name]);
      var st := Stat(fs, path);
      assert entries[..i + 1][..i] == entries[..i];
      if st.None? {
        FailurePersists(srv, fs, parent, entries, i + 1);
        return Fail(EntryStatFailed(path));
      }
      if st.value.File? {
        files := files + [name];
      } else {
        dirs := dirs + [name];
      }
    }
    assert entries[..|entries|] == entries;
    var html := srv.render(Payload(srv.runAddress, srv.srcPath, Listing(files, dirs)));
    if html.None? {
      return Fail(RenderFailed);
    }
    return Ok(Initial.(body := html.value));
  }
}
