/** What a scan covers and remembers, said of paths in the file system. */
module ScannedMessages {
  import opened Wrappers
  import opened Scanners

  /** No .noindex, and no .noupdate unless that is ignored. */
  predicate Unmarked(c: Conf, e: Entry)
    requires e.Dir?
  {
    !e.noindex && (!e.noupdate || c.ignoreNoupdate)
  }

  predicate Ordinary(name: string) { name != "" && name != "." && name != ".." }

  /** The way from directory d at path to a message p: the places of the entries
      passed through, directories without marks, and of the message: a file that is
      not too big, in a directory named cur or new. */
  ghost predicate LeadsTo(c: Conf, path: string, d: Entry, way: seq<nat>, p: string)
    requires d.Dir?
    decreases d
  {
    && way != [] && way[0] < |d.entries|
    && var e := d.entries[way[0]];
       && Ordinary(e.name)
       && if |way| == 1 then
            p == path + "/" + e.name && e.File? && e.size <= c.maxSize && (d.name == "cur" || d.name == "new")
          else e.Dir? && Unmarked(c, e) && LeadsTo(c, path + "/" + e.name, e, way[1..], p)
  }

  /** p is a message below root. */
  ghost predicate IsMessage(c: Conf, path: string, root: Entry, p: string)
    requires root.Dir?
  {
    exists way :: LeadsTo(c, path, root, way, p)
  }

  lemma {:induction false} MessagesInAre(c: Conf, path: string, d: Entry, n: nat, p: string)
    requires d.Dir? && n <= |d.entries|
    ensures p in MessagesIn(c, path, d, n, d.name == "cur" || d.name == "new") <==>
            exists way :: LeadsTo(c, path, d, way, p) && way[0] < n
    decreases d, 1, n
  {
    if n > 0 {
      MessagesInAre(c, path, d, n - 1, p);
      MessageIs(c, path, d, n - 1, p);
    }
  }

  /** Of one entry. */
  lemma {:induction false} MessageIs(c: Conf, path: string, d: Entry, i: nat, p: string)
    requires d.Dir? && i < |d.entries|
    ensures p in Messages(c, path, d.entries[i], d.name == "cur" || d.name == "new") <==>
            exists way :: LeadsTo(c, path, d, way, p) && way[0] == i
    decreases d, 0
  {
    var e := d.entries[i];
    var full := path + "/" + e.name;
    if e.Dir? { MessagesInAre(c, full, e, |e.entries|, p); }
    if p in Messages(c, path, e, d.name == "cur" || d.name == "new") {
      if e.Dir? {
        var way :| LeadsTo(c, full, e, way, p);
        assert ([i] + way)[1..] == way;
        assert LeadsTo(c, path, d, [i] + way, p);
      } else {
        assert LeadsTo(c, path, d, [i], p);
      }
    }
    if way :| LeadsTo(c, path, d, way, p) && way[0] == i {
      if |way| > 1 { assert LeadsTo(c, full, e, way[1..], p) && way[1..][0] < |e.entries|; }
    }
  }

  /** A scan that is not lazy queues messages only, none twice, and every message that
      is not stored. */
  lemma ScanFindsMessages(c: Conf, store: set<string>, stamps: map<string, int>, path: string, root: Entry)
    requires !c.lazyCheck && root.Dir? && ProperNames(root)
    ensures var queued :=
              ScanItems(c, store, Scan(stamps, 0, []), path, root, |root.entries|, IsNewCur(root.name)).queued;
            && (forall p :: IsMessage(c, path, root, p) ==> p in store || p in queued)
            && (forall p <- queued :: IsMessage(c, path, root, p) && multiset(queued)[p] == 1)
  {
    ScanCovers(c, store, stamps, path, root);
    assert IsNewCur(root.name) <==> root.name == "cur" || root.name == "new";
    forall p ensures p in MessagesIn(c, path, root, |root.entries|, IsNewCur(root.name)) <==>
      IsMessage(c, path, root, p) {
      MessagesInAre(c, path, root, |root.entries|, p);
    }
  }

  // What is remembered

  /** The stamp of a path; one that was never walked has the stamp 0. */
  predicate HasStamp(s: Scan, path: string, stamp: int) {
    (path in s.stamps && s.stamps[path] == stamp) || (path !in s.stamps && stamp == 0)
  }

  /** A directory is entered unless it is marked, or is a cur or new directory that a
      lazy scan takes for unchanged. */
  predicate Entered(c: Conf, s: Scan, path: string, e: Entry)
    requires e.Dir?
  {
    Unmarked(c, e) && !(c.lazyCheck && HasStamp(s, path, e.mtime) && (e.name == "cur" || e.name == "new"))
  }

  /** The way from d to the directory dir at p, all entered. */
  ghost predicate LeadsInto(c: Conf, s: Scan, path: string, d: Entry, way: seq<nat>, p: string, dir: Entry)
    requires d.Dir?
    decreases d
  {
    && dir.Dir? && way != [] && way[0] < |d.entries|
    && var e := d.entries[way[0]];
       var full := path + "/" + e.name;
       && Ordinary(e.name) && e.Dir? && Entered(c, s, full, e)
       && if |way| == 1 then p == full && dir == e else LeadsInto(c, s, full, e, way[1..], p, dir)
  }

  lemma {:induction false} LeadsUnder(c: Conf, s: Scan, path: string, d: Entry, way: seq<nat>, p: string, dir: Entry)
    requires d.Dir? && LeadsInto(c, s, path, d, way, p, dir)
    ensures Under(Join(path, d.entries[way[0]].name), p) && (|way| > 1 ==> p != Join(path, d.entries[way[0]].name))
    decreases d
  {
    var e := d.entries[way[0]];
    if |way| > 1 {
      LeadsUnder(c, s, Join(path, e.name), e, way[1..], p, dir);
      UnderTrans(Join(path, e.name), Join(Join(path, e.name), e.entries[way[1]].name), e.entries[way[1]].name, p);
    }
  }

  /** Two entries of a directory have nothing below both. */
  lemma OneWayOnly(path: string, d: Entry, i: nat, j: nat, p: string)
    requires d.Dir? && ProperNames(d) && i < |d.entries| && j < |d.entries|
    requires Under(Join(path, d.entries[i].name), p) && Under(Join(path, d.entries[j].name), p)
    ensures i == j
  {
    assert ProperNames(d.entries[i]) && ProperNames(d.entries[j]);
    UnderName(path, d.entries[i].name, p);
    UnderName(path, d.entries[j].name, p);
  }

  lemma {:induction false} StampsAre(c: Conf, store: set<string>, s: Scan, t: Scan, path: string, d: Entry, n: nat,
                                     isMaildir: bool, p: string)
    requires d.Dir? && ProperNames(d) && n <= |d.entries| && SameBelow(s, t, path)
    ensures var u := ScanItems(c, store, t, path, d, n, isMaildir);
            && (forall way, dir :: LeadsInto(c, s, path, d, way, p, dir) && way[0] < n ==> StampOf(u, p) == dir.mtime)
            && ((forall way, dir :: LeadsInto(c, s, path, d, way, p, dir) ==> way[0] >= n) ==>
               StampOf(u, p) == StampOf(t, p))
    decreases d, 1, n
  {
    if n > 0 {
      var u, e := ScanItems(c, store, t, path, d, n - 1, isMaildir), d.entries[n - 1];
      var full := Join(path, e.name);
      StampsAre(c, store, s, t, path, d, n - 1, isMaildir, p);
      forall way, dir | LeadsInto(c, s, path, d, way, p, dir) ensures Under(full, p) ==> way[0] == n - 1 {
        LeadsUnder(c, s, path, d, way, p, dir);
        if Under(full, p) { OneWayOnly(path, d, way[0], n - 1, p); }
      }
      if Under(full, p) {
        EntryStamp(c, store, s, t, path, d, n - 1, isMaildir, p);
      } else {
        StampsElsewhere(c, store, u, path, e, isMaildir, p);
        forall way, dir | LeadsInto(c, s, path, d, way, p, dir) ensures way[0] != n - 1 {
          LeadsUnder(c, s, path, d, way, p, dir);
        }
      }
    }
  }

  /** The stamps at and below one entry, after it is walked. */
  lemma {:induction false} EntryStamp(c: Conf, store: set<string>, s: Scan, t: Scan, path: string, d: Entry, i: nat,
                                      isMaildir: bool, p: string)
    requires d.Dir? && ProperNames(d) && i < |d.entries| && SameBelow(s, t, path)
    requires Under(Join(path, d.entries[i].name), p)
    ensures var u := ScanItems(c, store, t, path, d, i + 1, isMaildir);
            && (forall way, dir :: LeadsInto(c, s, path, d, way, p, dir) && way[0] == i ==> StampOf(u, p) == dir.mtime)
            && ((forall way, dir :: LeadsInto(c, s, path, d, way, p, dir) ==> way[0] != i) ==>
               StampOf(u, p) == StampOf(t, p))
    decreases d, 0
  {
    var u, e := ScanItems(c, store, t, path, d, i, isMaildir), d.entries[i];
    var full := Join(path, e.name);
    assert ProperNames(e);
    OthersLeave(c, store, t, path, d, i, isMaildir, p);
    forall q | Under(full, q) ensures StampOf(u, q) == StampOf(s, q) {
      OthersLeave(c, store, t, path, d, i, isMaildir, q);
      UnderTrans(path, full, e.name, q);
    }
    assert Under(full, full);
    if e.Dir? && Ordinary(e.name) && Entered(c, s, full, e) {
      var u' := u.(stamp := StampOf(u, full));
      StampsAre(c, store, s, u', full, e, |e.entries|, IsNewCur(e.name), p);
      if p == full {
        assert LeadsInto(c, s, path, d, [i], p, e);
        forall way, dir | LeadsInto(c, s, path, d, way, p, dir) && way[0] == i ensures dir == e {
          LeadsUnder(c, s, path, d, way, p, dir);
        }
      } else {
        forall way, dir | LeadsInto(c, s, path, d, way, p, dir) && way[0] == i
          ensures LeadsInto(c, s, full, e, way[1..], p, dir) && way[1..][0] < |e.entries|
        {}
        forall way, dir | LeadsInto(c, s, full, e, way, p, dir) ensures LeadsInto(c, s, path, d, [i] + way, p, dir) {
          assert ([i] + way)[1..] == way;
        }
      }
    }
  }

  /** After a scan every directory that was entered has its time as its stamp; all
      other stamps are as before. */
  lemma StampsAfterScan(c: Conf, store: set<string>, s: Scan, path: string, root: Entry, p: string)
    requires root.Dir? && ProperNames(root)
    ensures var t := ScanItems(c, store, s, path, root, |root.entries|, IsNewCur(root.name));
            && (forall way, dir :: LeadsInto(c, s, path, root, way, p, dir) ==> HasStamp(t, p, dir.mtime))
            && ((forall way, dir :: !LeadsInto(c, s, path, root, way, p, dir)) ==>
                  forall stamp :: HasStamp(t, p, stamp) <==> HasStamp(s, p, stamp))
  {
    StampsAre(c, store, s, s, path, root, |root.entries|, IsNewCur(root.name), p);
  }
}
