/**
 * The grouping step of a scan: accepted image references, each a (directory, filename,
 * image) triple, are gathered per directory; within a directory one entry is kept per
 * filename, holding every distinct image that resolves to that file.
 */
module PathIndex {
  import opened Seqs
  import opened HostApi

  /** One accepted reference: the split absolute path of an image and the image itself. */
  datatype Ref = Ref(dir: string, name: string, image: ImageId)

  /** One file of a directory and the images that use it. */
  datatype Entry = Entry(filename: string, images: seq<ImageId>)

  /** One directory and its files, in the order they were first met. */
  datatype Group = Group(dir: string, entries: seq<Entry>)

  /** The sort key of a group: its directory. */
  function DirOf(g: Group): string {
    g.dir
  }

  /** Position of the group for directory `d`, or -1 (the dictionary lookup `path in paths`). */
  function FindDir(gs: seq<Group>, d: string): (k: int)
    ensures -1 <= k < |gs|
    ensures k >= 0 ==> gs[k].dir == d
    ensures k == -1 ==> forall j :: 0 <= j < |gs| ==> gs[j].dir != d
    decreases |gs|
  {
    if |gs| == 0 then -1
    else if gs[|gs| - 1].dir == d then |gs| - 1
    else FindDir(gs[..|gs| - 1], d)
  }

  /** Position of the entry named `n`, or -1 (the scan for `e['filename'] == name`). */
  function FindName(es: seq<Entry>, n: string): (k: int)
    ensures -1 <= k < |es|
    ensures k >= 0 ==> es[k].filename == n
    ensures k == -1 ==> forall j :: 0 <= j < |es| ==> es[j].filename != n
    decreases |es|
  {
    if |es| == 0 then -1
    else if es[|es| - 1].filename == n then |es| - 1
    else FindName(es[..|es| - 1], n)
  }

  /** Records one more image for file `n`: appended to an existing entry if new to it, else a new entry. */
  function AddToEntries(es: seq<Entry>, n: string, img: ImageId): seq<Entry> {
    var e := FindName(es, n);
    if e == -1 then es + [Entry(n, [img])]
    else if img in es[e].images then es
    else es[e := Entry(n, es[e].images + [img])]
  }

  /** Records one reference in the index. */
  function Add(gs: seq<Group>, r: Ref): seq<Group> {
    var k := FindDir(gs, r.dir);
    if k == -1 then gs + [Group(r.dir, [Entry(r.name, [r.image])])]
    else gs[k := Group(r.dir, AddToEntries(gs[k].entries, r.name, r.image))]
  }

  /** The index built by recording the references in order. */
  function Index(refs: seq<Ref>): seq<Group>
    decreases |refs|
  {
    if |refs| == 0 then [] else Add(Index(refs[..|refs| - 1]), refs[|refs| - 1])
  }

  // Reference definitions: the projections of the references, before deduplication.

  /** The directory of every reference, in order. */
  function Dirs(refs: seq<Ref>): seq<string>
    decreases |refs|
  {
    if |refs| == 0 then [] else Dirs(refs[..|refs| - 1]) + [refs[|refs| - 1].dir]
  }

  /** The filename of every reference into directory `d`, in order. */
  function Names(refs: seq<Ref>, d: string): seq<string>
    decreases |refs|
  {
    if |refs| == 0 then []
    else
      var r := refs[|refs| - 1];
      Names(refs[..|refs| - 1], d) + (if r.dir == d then [r.name] else [])
  }

  /** The image of every reference to file `n` in directory `d`, in order. */
  function Images(refs: seq<Ref>, d: string, n: string): seq<ImageId>
    decreases |refs|
  {
    if |refs| == 0 then []
    else
      var r := refs[|refs| - 1];
      Images(refs[..|refs| - 1], d, n) + (if r.dir == d && r.name == n then [r.image] else [])
  }

  lemma {:induction false} DirsMembership(refs: seq<Ref>, d: string)
    ensures d in Dirs(refs) <==> exists r :: r in refs && r.dir == d
    decreases |refs|
  {
    if |refs| > 0 {
      var init := refs[..|refs| - 1];
      DirsMembership(init, d);
      assert refs == init + [refs[|refs| - 1]];
    }
  }

  lemma {:induction false} NamesMembership(refs: seq<Ref>, d: string, n: string)
    ensures n in Names(refs, d) <==> exists r :: r in refs && r.dir == d && r.name == n
    decreases |refs|
  {
    if |refs| > 0 {
      var init := refs[..|refs| - 1];
      NamesMembership(init, d, n);
      assert refs == init + [refs[|refs| - 1]];
    }
  }

  lemma {:induction false} ImagesMembership(refs: seq<Ref>, d: string, n: string, img: ImageId)
    ensures img in Images(refs, d, n) <==> Ref(d, n, img) in refs
    decreases |refs|
  {
    if |refs| > 0 {
      var init := refs[..|refs| - 1];
      ImagesMembership(init, d, n, img);
      assert refs == init + [refs[|refs| - 1]];
    }
  }

  /** Group `g` lists exactly the first-seen filenames of its directory, each with its first-seen images. */
  ghost predicate GroupMatches(refs: seq<Ref>, g: Group) {
    var names := Dedup(Names(refs, g.dir));
    && |g.entries| == |names|
    && forall e :: 0 <= e < |g.entries| ==>
         && g.entries[e].filename == names[e]
         && g.entries[e].images == Dedup(Images(refs, g.dir, names[e]))
  }

  /** The index holds one group per first-seen directory, each matching the references. */
  ghost predicate IndexMatches(refs: seq<Ref>, gs: seq<Group>) {
    var dirs := Dedup(Dirs(refs));
    && |gs| == |dirs|
    && forall k :: 0 <= k < |gs| ==> gs[k].dir == dirs[k] && GroupMatches(refs, gs[k])
  }

  /** A reference into another directory changes nothing about directory `d`. */
  lemma OtherDirUnchanged(refs: seq<Ref>, r: Ref, g: Group)
    requires r.dir != g.dir
    requires GroupMatches(refs, g)
    ensures GroupMatches(refs + [r], g)
  {
    var refs' := refs + [r];
    assert refs'[..|refs'| - 1] == refs;
    var names := Dedup(Names(refs, g.dir));
    assert Names(refs', g.dir) == Names(refs, g.dir);
    forall e | 0 <= e < |g.entries|
      ensures Images(refs', g.dir, names[e]) == Images(refs, g.dir, names[e])
    {
    }
  }

  /** A directory that was never referenced has no filenames. */
  lemma {:induction false} UnseenDirHasNoNames(refs: seq<Ref>, d: string)
    requires d !in Dirs(refs)
    ensures Names(refs, d) == []
    decreases |refs|
  {
    if |refs| > 0 {
      var init := refs[..|refs| - 1];
      assert Dirs(refs) == Dirs(init) + [refs[|refs| - 1].dir];
      UnseenDirHasNoNames(init, d);
    }
  }

  /** A file that was never referenced has no images. */
  lemma {:induction false} UnseenNameHasNoImages(refs: seq<Ref>, d: string, n: string)
    requires n !in Names(refs, d)
    ensures Images(refs, d, n) == []
    decreases |refs|
  {
    if |refs| > 0 {
      var init := refs[..|refs| - 1];
      UnseenNameHasNoImages(init, d, n);
    }
  }

  lemma SnocNames(refs: seq<Ref>, r: Ref, d: string)
    ensures Names(refs + [r], d) == Names(refs, d) + (if r.dir == d then [r.name] else [])
  {
    assert (refs + [r])[..|refs + [r]| - 1] == refs;
  }

  lemma SnocImages(refs: seq<Ref>, r: Ref, d: string, n: string)
    ensures Images(refs + [r], d, n) == Images(refs, d, n) + (if r.dir == d && r.name == n then [r.image] else [])
  {
    assert (refs + [r])[..|refs + [r]| - 1] == refs;
  }

  /** A filename without an entry in a matching group was never referenced in its directory. */
  lemma NameAbsent(refs: seq<Ref>, g: Group, n: string)
    requires GroupMatches(refs, g) && FindName(g.entries, n) == -1
    ensures n !in Names(refs, g.dir)
  {
    var names := Dedup(Names(refs, g.dir));
    forall j | 0 <= j < |names| ensures names[j] != n {
      assert g.entries[j].filename == names[j];
    }
  }

  /** A reference to a file new to the directory adds it as the last name, with just its image. */
  lemma NewNameLists(refs: seq<Ref>, r: Ref)
    requires r.name !in Names(refs, r.dir)
    ensures Dedup(Names(refs + [r], r.dir)) == Dedup(Names(refs, r.dir)) + [r.name]
    ensures Dedup(Images(refs + [r], r.dir, r.name)) == [r.image]
  {
    SnocNames(refs, r, r.dir);
    DedupSnoc(Names(refs, r.dir), r.name);
    UnseenNameHasNoImages(refs, r.dir, r.name);
    SnocImages(refs, r, r.dir, r.name);
    assert Images(refs + [r], r.dir, r.name) == [] + [r.image];
    DedupSnoc([], r.image);
  }

  /** A reference to a known file keeps the names and appends its image to that file's images. */
  lemma KnownNameLists(refs: seq<Ref>, r: Ref)
    requires r.name in Names(refs, r.dir)
    ensures Dedup(Names(refs + [r], r.dir)) == Dedup(Names(refs, r.dir))
    ensures Images(refs + [r], r.dir, r.name) == Images(refs, r.dir, r.name) + [r.image]
  {
    SnocNames(refs, r, r.dir);
    DedupSnoc(Names(refs, r.dir), r.name);
    SnocImages(refs, r, r.dir, r.name);
  }

  /** A reference to another file of the directory leaves that file's images as they were. */
  lemma OtherNameImages(refs: seq<Ref>, r: Ref, d: string, n: string)
    requires r.dir != d || r.name != n
    ensures Images(refs + [r], d, n) == Images(refs, d, n)
  {
    SnocImages(refs, r, d, n);
  }

  /** A reference to a file new to the directory appends an entry holding just its image. */
  lemma NewNameStep(refs: seq<Ref>, r: Ref, g: Group)
    requires r.dir == g.dir && GroupMatches(refs, g)
    requires FindName(g.entries, r.name) == -1
    ensures GroupMatches(refs + [r], Group(g.dir, g.entries + [Entry(r.name, [r.image])]))
  {
    var d := g.dir;
    var es := g.entries;
    var names := Dedup(Names(refs, d));
    NameAbsent(refs, g, r.name);
    NewNameLists(refs, r);
    var names' := Dedup(Names(refs + [r], d));
    var es' := es + [Entry(r.name, [r.image])];
    forall j | 0 <= j < |es'|
      ensures es'[j].filename == names'[j]
      ensures es'[j].images == Dedup(Images(refs + [r], d, names'[j]))
    {
      if j < |es| {
        assert es'[j] == es[j] && names'[j] == names[j];
        assert es[j].filename == names[j] && es[j].images == Dedup(Images(refs, d, names[j]));
        assert names[j] != r.name;
        OtherNameImages(refs, r, d, names[j]);
      }
    }
  }

  /** Another reference to a known file adds its image to that entry if the image is new to it. */
  lemma KnownNameStep(refs: seq<Ref>, r: Ref, g: Group, e: int)
    requires r.dir == g.dir && GroupMatches(refs, g)
    requires FindName(g.entries, r.name) == e && e != -1
    ensures GroupMatches(refs + [r], Group(g.dir, AddToEntries(g.entries, r.name, r.image)))
  {
    var d := g.dir;
    var es := g.entries;
    var names := Dedup(Names(refs, d));
    assert names[e] == r.name;
    DedupNoDup(Names(refs, d));
    KnownNameLists(refs, r);
    var imgs := Images(refs, d, r.name);
    DedupSnoc(imgs, r.image);
    var es' := AddToEntries(es, r.name, r.image);
    assert |es'| == |es|;
    forall j | 0 <= j < |es'|
      ensures es'[j].filename == names[j]
      ensures es'[j].images == Dedup(Images(refs + [r], d, names[j]))
    {
      if j != e {
        NoDupAt(names, j, e);
        assert es'[j] == es[j];
        OtherNameImages(refs, r, d, names[j]);
      }
    }
  }

  /** Recording a reference into the group of its own directory keeps that group matching. */
  lemma SameDirStep(refs: seq<Ref>, r: Ref, g: Group)
    requires r.dir == g.dir
    requires GroupMatches(refs, g)
    ensures GroupMatches(refs + [r], Group(g.dir, AddToEntries(g.entries, r.name, r.image)))
  {
    var e := FindName(g.entries, r.name);
    if e == -1 {
      NewNameStep(refs, r, g);
    } else {
      KnownNameStep(refs, r, g, e);
    }
  }

  /** A directory without a group in a matching index was never referenced. */
  lemma DirAbsent(refs: seq<Ref>, gs: seq<Group>, d: string)
    requires IndexMatches(refs, gs) && FindDir(gs, d) == -1
    ensures d !in Dirs(refs)
  {
    var dirs := Dedup(Dirs(refs));
    forall j | 0 <= j < |dirs| ensures dirs[j] != d {
      assert gs[j].dir == dirs[j];
    }
  }

  lemma SnocDirs(refs: seq<Ref>, r: Ref)
    ensures Dirs(refs + [r]) == Dirs(refs) + [r.dir]
  {
    assert (refs + [r])[..|refs + [r]| - 1] == refs;
  }

  /** The group of a directory met for the first time holds just the reference's file and image. */
  lemma NewDirGroup(refs: seq<Ref>, r: Ref)
    requires r.dir !in Dirs(refs)
    ensures GroupMatches(refs + [r], Group(r.dir, [Entry(r.name, [r.image])]))
  {
    UnseenDirHasNoNames(refs, r.dir);
    var g := Group(r.dir, []);
    assert GroupMatches(refs, g);
    NewNameStep(refs, r, g);
    assert [] + [Entry(r.name, [r.image])] == [Entry(r.name, [r.image])];
  }

  /** A reference into a new directory appends a group holding just its file and image. */
  lemma NewDirStep(refs: seq<Ref>, gs: seq<Group>, r: Ref)
    requires IndexMatches(refs, gs) && FindDir(gs, r.dir) == -1
    ensures IndexMatches(refs + [r], Add(gs, r))
  {
    DirAbsent(refs, gs, r.dir);
    SnocDirs(refs, r);
    DedupSnoc(Dirs(refs), r.dir);
    var dirs := Dedup(Dirs(refs));
    var dirs' := Dedup(Dirs(refs + [r]));
    assert dirs' == dirs + [r.dir];
    NewDirGroup(refs, r);
    var gs' := Add(gs, r);
    assert gs' == gs + [Group(r.dir, [Entry(r.name, [r.image])])];
    forall j | 0 <= j < |gs'|
      ensures gs'[j].dir == dirs'[j] && GroupMatches(refs + [r], gs'[j])
    {
      if j < |gs| {
        assert gs'[j] == gs[j] && dirs'[j] == dirs[j];
        OtherDirUnchanged(refs, r, gs[j]);
      }
    }
  }

  /** A reference into a known directory updates that directory's group only. */
  lemma KnownDirStep(refs: seq<Ref>, gs: seq<Group>, r: Ref, k: int)
    requires IndexMatches(refs, gs) && FindDir(gs, r.dir) == k && k != -1
    ensures IndexMatches(refs + [r], Add(gs, r))
  {
    var dirs := Dedup(Dirs(refs));
    DedupNoDup(Dirs(refs));
    SnocDirs(refs, r);
    assert r.dir in dirs by {
      assert dirs[k] == r.dir;
    }
    DedupSnoc(Dirs(refs), r.dir);
    SameDirStep(refs, r, gs[k]);
    forall j | 0 <= j < |gs| && j != k
      ensures GroupMatches(refs + [r], gs[j])
    {
      NoDupAt(dirs, j, k);
      OtherDirUnchanged(refs, r, gs[j]);
    }
  }

  /** The index lists the first-seen directories, filenames and images of the references. */
  lemma {:induction false} IndexMatchesRefs(refs: seq<Ref>)
    ensures IndexMatches(refs, Index(refs))
    decreases |refs|
  {
    if |refs| > 0 {
      var init := refs[..|refs| - 1];
      var r := refs[|refs| - 1];
      assert refs == init + [r];
      IndexMatchesRefs(init);
      var gs := Index(init);
      var k := FindDir(gs, r.dir);
      if k == -1 {
        NewDirStep(init, gs, r);
      } else {
        KnownDirStep(init, gs, r, k);
      }
    }
  }
}
