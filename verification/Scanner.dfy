/** The scanner: it walks the maildir and queues the messages that are new. */
module Scanners {
  import opened Wrappers

  /** A directory entry, with what stat says of it; .noindex and .noupdate files are
      marks of the directory they are in. */
  datatype Entry =
    | File(name: string, size: nat, mtime: int)
    | Dir(name: string, mtime: int, noindex: bool, noupdate: bool, entries: seq<Entry>)
    | Other(name: string)

  datatype Conf = Conf(lazyCheck: bool, ignoreNoupdate: bool, maxSize: nat)

  /** The stored time stamps, the stamp of the directory entered last, and the paths
      queued so far. */
  datatype Scan = Scan(stamps: map<string, int>, stamp: int, queued: seq<string>)

  predicate IsSpecialDir(name: string) { name == "" || name == "." || name == ".." }

  predicate IsNewCur(name: string) { name == "cur" || name == "new" }

  function Join(path: string, name: string): string { path + "/" + name }

  function StampOf(s: Scan, path: string): int { if path in s.stamps then s.stamps[path] else 0 }

  /** Whether a directory is entered; its stamp becomes the current one. */
  predicate Enters(c: Conf, s: Scan, path: string, d: Entry)
    requires d.Dir?
  {
    && !(c.lazyCheck && StampOf(s, path) == d.mtime && IsNewCur(d.name))
    && !d.noindex && (c.ignoreNoupdate || !d.noupdate)
  }

  /** A message that is small enough is queued, unless it is stored and up to date. */
  function FileStep(c: Conf, store: set<string>, s: Scan, path: string, f: Entry): Scan
    requires f.File?
  {
    if f.size > c.maxSize || (f.mtime <= s.stamp && path in store) then s else s.(queued := s.queued + [path])
  }

  function ScanEntry(c: Conf, store: set<string>, s: Scan, path: string, e: Entry, isMaildir: bool): Scan
    decreases e, 2
  {
    var full := Join(path, e.name);
    if IsSpecialDir(e.name) then s
    else match e
      case Dir(_, mtime, _, _, entries) =>
        var s' := s.(stamp := StampOf(s, full));
        if !Enters(c, s, full, e) then s'
        else
          var s'' := ScanItems(c, store, s', full, e, |entries|, IsNewCur(e.name));
          s''.(stamps := s''.stamps[full := mtime])
      case File(_, _, _) => if isMaildir then FileStep(c, store, s, full, e) else s
      case Other(_) => s
  }

  /** The first n entries of a directory. */
  function ScanItems(c: Conf, store: set<string>, s: Scan, path: string, d: Entry, n: nat, isMaildir: bool): Scan
    requires d.Dir? && n <= |d.entries|
    decreases d, 1, n
  {
    if n == 0 then s
    else ScanEntry(c, store, ScanItems(c, store, s, path, d, n - 1, isMaildir), path, d.entries[n - 1], isMaildir)
  }

  // The walk as the program does it

  class Scanner {
    const conf: Conf
    const store: set<string>
    var stamps: map<string, int>
    var stamp: int
    var queued: seq<string>

    constructor (conf: Conf, store: set<string>, stamps: map<string, int>)
      ensures this.conf == conf && this.store == store && State() == Scan(stamps, 0, [])
    {
      this.conf, this.store, this.stamps, stamp, queued := conf, store, stamps, 0, [];
    }

    function State(): Scan
      reads this
    {
      Scan(stamps, stamp, queued)
    }

    method EnterDir(path: string, d: Entry) returns (res: bool)
      requires d.Dir?
      modifies this
      ensures res == Enters(conf, old(State()), path, d)
      ensures State() == old(State()).(stamp := StampOf(old(State()), path))
    {
      stamp := if path in stamps then stamps[path] else 0;
      if conf.lazyCheck && stamp == d.mtime && IsNewCur(d.name) { return false; }
      if d.noindex { return false; }
      if !conf.ignoreNoupdate && d.noupdate { return false; }
      res := true;
    }

    method HandleFile(path: string, f: Entry)
      requires f.File?
      modifies this
      ensures State() == FileStep(conf, store, old(State()), path, f)
    {
      if f.size > conf.maxSize { return; }
      if f.mtime <= stamp && path in store { return; }
      queued := queued + [path];
    }

    method ProcessDentry(path: string, e: Entry, isMaildir: bool)
      modifies this
      ensures State() == ScanEntry(conf, store, old(State()), path, e, isMaildir)
      decreases e, 2
    {
      if IsSpecialDir(e.name) { return; }
      var fullpath := Join(path, e.name);
      if e.Dir? {
        var res := EnterDir(fullpath, e);
        if !res { return; }
        ProcessDir(fullpath, e, IsNewCur(e.name));
        stamps := stamps[fullpath := e.mtime];
      } else if e.File? && isMaildir {
        HandleFile(fullpath, e);
      }
    }

    method ProcessDir(path: string, d: Entry, isMaildir: bool)
      requires d.Dir?
      modifies this
      ensures State() == ScanItems(conf, store, old(State()), path, d, |d.entries|, isMaildir)
      decreases d, 1
    {
      for n := 0 to |d.entries|
        invariant State() == ScanItems(conf, store, old(State()), path, d, n, isMaildir)
      {
        ProcessDentry(path, d.entries[n], isMaildir);
      }
    }

    /** The whole scan; the marks of the root itself are not looked at. */
    method Start(path: string, root: Entry)
      requires root.Dir?
      modifies this
      ensures State() == ScanItems(conf, store, old(State()), path, root, |root.entries|, IsNewCur(root.name))
    {
      ProcessDir(path, root, IsNewCur(root.name));
    }
  }

  // What is covered

  /** The messages of interest: those small enough, directly in a cur or new directory
      that can be reached through directories without marks. */
  function Messages(c: Conf, path: string, e: Entry, isMaildir: bool): multiset<string>
    decreases e, 2
  {
    var full := Join(path, e.name);
    if IsSpecialDir(e.name) then multiset{}
    else match e
      case Dir(_, _, noindex, noupdate, entries) =>
        if noindex || (noupdate && !c.ignoreNoupdate) then multiset{}
        else MessagesIn(c, full, e, |entries|, IsNewCur(e.name))
      case File(_, size, _) => if isMaildir && size <= c.maxSize then multiset{full} else multiset{}
      case Other(_) => multiset{}
  }

  function MessagesIn(c: Conf, path: string, d: Entry, n: nat, isMaildir: bool): multiset<string>
    requires d.Dir? && n <= |d.entries|
    decreases d, 1, n
  {
    if n == 0 then multiset{}
    else MessagesIn(c, path, d, n - 1, isMaildir) + Messages(c, path, d.entries[n - 1], isMaildir)
  }

  /** What was queued in going from s to s' is among the messages, and only stored
      ones were left out. */
  predicate Covers(store: set<string>, s: Scan, s': Scan, messages: multiset<string>) {
    && s.queued <= s'.queued
    && var more := multiset(s'.queued[|s.queued|..]);
       more <= messages && forall p <- messages :: p in store || more[p] == messages[p]
  }

  lemma CoversBoth(store: set<string>, s: Scan, t: Scan, u: Scan, a: multiset<string>, b: multiset<string>)
    requires Covers(store, s, t, a) && Covers(store, t, u, b)
    ensures Covers(store, s, u, a + b)
  {
    var x, y := t.queued[|s.queued|..], u.queued[|t.queued|..];
    assert u.queued[|s.queued|..] == x + y;
    forall p | p in a + b ensures p in store || multiset(x + y)[p] == (a + b)[p] {
      assert p in a || a[p] == 0;
      assert p in b || b[p] == 0;
    }
  }

  lemma {:induction false} EntryCovered(c: Conf, store: set<string>, s: Scan, path: string, e: Entry, isMaildir: bool)
    requires !c.lazyCheck
    ensures Covers(store, s, ScanEntry(c, store, s, path, e, isMaildir), Messages(c, path, e, isMaildir))
    decreases e, 2
  {
    var full := Join(path, e.name);
    if e.Dir? && !IsSpecialDir(e.name) && Enters(c, s, full, e) {
      ItemsCovered(c, store, s.(stamp := StampOf(s, full)), full, e, |e.entries|, IsNewCur(e.name));
    } else if e.File? {
      assert (s.queued + [full])[|s.queued|..] == [full];
    }
  }

  lemma {:induction false} ItemsCovered(c: Conf, store: set<string>, s: Scan, path: string, d: Entry, n: nat,
      isMaildir: bool)
    requires !c.lazyCheck && d.Dir? && n <= |d.entries|
    ensures Covers(store, s, ScanItems(c, store, s, path, d, n, isMaildir), MessagesIn(c, path, d, n, isMaildir))
    decreases d, 1, n
  {
    if n > 0 {
      var t := ScanItems(c, store, s, path, d, n - 1, isMaildir);
      ItemsCovered(c, store, s, path, d, n - 1, isMaildir);
      EntryCovered(c, store, t, path, d.entries[n - 1], isMaildir);
      CoversBoth(store, s, t, ScanItems(c, store, s, path, d, n, isMaildir),
                 MessagesIn(c, path, d, n - 1, isMaildir), Messages(c, path, d.entries[n - 1], isMaildir));
    }
  }

  // No path occurs twice

  /** Names without a slash, and each only once in its directory, as file systems
      have them. */
  predicate ProperNames(e: Entry) {
    && '/' !in e.name
    && (e.Dir? ==>
          && (forall i, j :: 0 <= i < j < |e.entries| ==> e.entries[i].name != e.entries[j].name)
          && forall f <- e.entries :: ProperNames(f))
  }

  /** p is full, or lies below it. */
  predicate Under(full: string, p: string) { full <= p && (p == full || p[|full|] == '/') }

  function UpToSlash(s: string): string {
    if s == "" || s[0] == '/' then "" else [s[0]] + UpToSlash(s[1..])
  }

  lemma {:induction false} FirstPart(a: string, rest: string)
    requires '/' !in a && (rest == "" || rest[0] == '/')
    ensures UpToSlash(a + rest) == a
  {
    if a == "" {
      assert a + rest == rest;
    } else {
      assert (a + rest)[1..] == a[1..] + rest;
      FirstPart(a[1..], rest);
    }
  }

  /** The path of what lies below an entry tells its name. */
  lemma UnderName(path: string, name: string, p: string)
    requires '/' !in name && Under(Join(path, name), p)
    ensures |path| + 1 <= |p| && UpToSlash(p[|path| + 1..]) == name
  {
    var full := Join(path, name);
    assert p[..|full|] == full && full[|path| + 1..] == name;
    assert p[|path| + 1..] == name + p[|full|..];
    FirstPart(name, p[|full|..]);
  }

  lemma UnderTrans(full: string, mid: string, name: string, p: string)
    requires mid == Join(full, name) && Under(mid, p)
    ensures Under(full, p)
  {
    assert p[..|mid|] == mid;
  }

  lemma {:induction false} MessagesUnder(c: Conf, path: string, e: Entry, isMaildir: bool, p: string)
    requires ProperNames(e) && p in Messages(c, path, e, isMaildir)
    ensures Under(Join(path, e.name), p) && Messages(c, path, e, isMaildir)[p] == 1
    decreases e, 2
  {
    if e.Dir? { MessagesInUnder(c, Join(path, e.name), e, |e.entries|, IsNewCur(e.name), p); }
  }

  lemma {:induction false} MessagesInUnder(c: Conf, path: string, d: Entry, n: nat, isMaildir: bool, p: string)
    requires d.Dir? && ProperNames(d) && n <= |d.entries| && p in MessagesIn(c, path, d, n, isMaildir)
    ensures Under(path, p) && MessagesIn(c, path, d, n, isMaildir)[p] == 1
    ensures exists i :: 0 <= i < n && Under(Join(path, d.entries[i].name), p)
    decreases d, 1, n
  {
    var e := d.entries[n - 1];
    var before, last := MessagesIn(c, path, d, n - 1, isMaildir), Messages(c, path, e, isMaildir);
    if p in last {
      MessagesUnder(c, path, e, isMaildir, p);
      UnderTrans(path, Join(path, e.name), e.name, p);
    }
    if p in before {
      MessagesInUnder(c, path, d, n - 1, isMaildir, p);
      var i :| 0 <= i < n - 1 && Under(Join(path, d.entries[i].name), p);
      assert ProperNames(d.entries[i]) && ProperNames(e);
      UnderName(path, d.entries[i].name, p);
      if p in last { UnderName(path, e.name, p); }
    }
  }

  /** The coverage of a scan that is not lazy: each message of interest is stored or
      queued, none twice and nothing else, whatever the stored stamps are. */
  lemma ScanCovers(c: Conf, store: set<string>, stamps: map<string, int>, path: string, root: Entry)
    requires !c.lazyCheck && root.Dir? && ProperNames(root)
    ensures var isMaildir := IsNewCur(root.name);
            var queued := ScanItems(c, store, Scan(stamps, 0, []), path, root, |root.entries|, isMaildir).queued;
            var messages := MessagesIn(c, path, root, |root.entries|, isMaildir);
            && (forall p <- messages :: p in store || p in queued)
            && (forall p <- queued :: p in messages && multiset(queued)[p] == 1)
  {
    var isMaildir, s := IsNewCur(root.name), Scan(stamps, 0, []);
    var queued := ScanItems(c, store, s, path, root, |root.entries|, isMaildir).queued;
    var messages := MessagesIn(c, path, root, |root.entries|, isMaildir);
    ItemsCovered(c, store, s, path, root, |root.entries|, isMaildir);
    assert queued[0..] == queued;
    forall p | p in queued ensures p in messages && multiset(queued)[p] == 1 {
      assert p in multiset(queued);
      MessagesInUnder(c, path, root, |root.entries|, isMaildir, p);
    }
    forall p | p in messages ensures p in store || p in queued { assert p in store || p in multiset(queued); }
  }

  // Stored messages that changed

  /** The directory asked for last when an entry is walked, if any. */
  function LastAsked(c: Conf, s: Scan, path: string, e: Entry): Option<string>
    decreases e, 2
  {
    var full := Join(path, e.name);
    if IsSpecialDir(e.name) || !e.Dir? then None
    else if !Enters(c, s, full, e) then Some(full)
    else
      var last := LastAskedIn(c, s, full, e, |e.entries|);
      if last.Some? then last else Some(full)
  }

  /** ... when the first n entries of a directory are. */
  function LastAskedIn(c: Conf, s: Scan, path: string, d: Entry, n: nat): Option<string>
    requires d.Dir? && n <= |d.entries|
    decreases d, 1, n
  {
    if n == 0 then None
    else
      var last := LastAsked(c, s, path, d.entries[n - 1]);
      if last.Some? then last else LastAskedIn(c, s, path, d, n - 1)
  }

  /** Below path, t has the stamps of s. */
  ghost predicate SameBelow(s: Scan, t: Scan, path: string) {
    forall p :: Under(path, p) && p != path ==> StampOf(t, p) == StampOf(s, p)
  }

  /** Stamps change only at directories that are walked. */
  lemma {:induction false} StampsElsewhere(c: Conf, store: set<string>, s: Scan, path: string, e: Entry,
      isMaildir: bool, p: string)
    requires !Under(Join(path, e.name), p)
    ensures StampOf(ScanEntry(c, store, s, path, e, isMaildir), p) == StampOf(s, p)
    decreases e, 2
  {
    var full := Join(path, e.name);
    if e.Dir? && !IsSpecialDir(e.name) && Enters(c, s, full, e) {
      StampsElsewhereIn(c, store, s.(stamp := StampOf(s, full)), full, e, |e.entries|, IsNewCur(e.name), p);
    }
  }

  lemma {:induction false} StampsElsewhereIn(c: Conf, store: set<string>, s: Scan, path: string, d: Entry, n: nat,
                                             isMaildir: bool, p: string)
    requires d.Dir? && n <= |d.entries| && forall i :: 0 <= i < n ==> !Under(Join(path, d.entries[i].name), p)
    ensures StampOf(ScanItems(c, store, s, path, d, n, isMaildir), p) == StampOf(s, p)
    decreases d, 1, n
  {
    if n > 0 {
      StampsElsewhereIn(c, store, s, path, d, n - 1, isMaildir, p);
      StampsElsewhere(c, store, ScanItems(c, store, s, path, d, n - 1, isMaildir), path, d.entries[n - 1], isMaildir,
        p);
    }
  }

  lemma {:induction false} AskedEntry(c: Conf, store: set<string>, s: Scan, t: Scan, path: string, e: Entry,
      isMaildir: bool)
    requires ProperNames(e) && forall p :: Under(Join(path, e.name), p) ==> StampOf(t, p) == StampOf(s, p)
    ensures var last := LastAsked(c, s, path, e);
            ScanEntry(c, store, t, path, e, isMaildir).stamp == if last.Some? then StampOf(s, last.value) else t.stamp
    decreases e, 2
  {
    var full := Join(path, e.name);
    if e.Dir? && !IsSpecialDir(e.name) {
      assert Under(full, full);
      if Enters(c, s, full, e) {
        AskedItems(c, store, s, t.(stamp := StampOf(t, full)), full, e, |e.entries|, IsNewCur(e.name));
      }
    }
  }

  /** The current stamp is that of the directory asked for last. */
  lemma {:induction false} AskedItems(c: Conf, store: set<string>, s: Scan, t: Scan, path: string, d: Entry, n: nat,
                                      isMaildir: bool)
    requires d.Dir? && ProperNames(d) && n <= |d.entries| && SameBelow(s, t, path)
    ensures var last := LastAskedIn(c, s, path, d, n);
            ScanItems(c, store, t, path, d, n, isMaildir).stamp == if last.Some? then StampOf(s, last.value)
              else t.stamp
    decreases d, 1, n
  {
    if n > 0 {
      var u, e := ScanItems(c, store, t, path, d, n - 1, isMaildir), d.entries[n - 1];
      AskedItems(c, store, s, t, path, d, n - 1, isMaildir);
      assert ProperNames(e);
      forall p | Under(Join(path, e.name), p) ensures StampOf(u, p) == StampOf(s, p) {
        OthersLeave(c, store, t, path, d, n - 1, isMaildir, p);
        UnderTrans(path, Join(path, e.name), e.name, p);
      }
      AskedEntry(c, store, s, u, path, e, isMaildir);
    }
  }

  /** Walking the entries before the n-th leaves the stamps below the n-th. */
  lemma OthersLeave(c: Conf, store: set<string>, t: Scan, path: string, d: Entry, n: nat, isMaildir: bool, p: string)
    requires d.Dir? && ProperNames(d) && n < |d.entries| && Under(Join(path, d.entries[n].name), p)
    ensures StampOf(ScanItems(c, store, t, path, d, n, isMaildir), p) == StampOf(t, p)
  {
    assert ProperNames(d.entries[n]);
    UnderName(path, d.entries[n].name, p);
    forall i | 0 <= i < n ensures !Under(Join(path, d.entries[i].name), p) {
      assert ProperNames(d.entries[i]);
      if Under(Join(path, d.entries[i].name), p) { UnderName(path, d.entries[i].name, p); }
    }
    StampsElsewhereIn(c, store, t, path, d, n, isMaildir, p);
  }

  /** In a cur or new directory that is entered, a stored message that is newer than
      the stamp of the directory is queued again, unless a directory asked for since
      then, which is one below it, has a stamp that is as new as the message. */
  lemma ChangedIsQueuedIff(c: Conf, store: set<string>, s: Scan, path: string, d: Entry, k: nat)
    requires d.Dir? && ProperNames(d) && k < |d.entries| && d.entries[k].File? && !IsSpecialDir(d.entries[k].name)
    requires s.stamp == StampOf(s, path)
    ensures var f, last := d.entries[k], LastAskedIn(c, s, path, d, k);
            var full := Join(path, f.name);
            var before, after := ScanItems(c, store, s, path, d, k, true), ScanItems(c, store, s, path, d, k + 1, true);
            full in store && f.size <= c.maxSize && f.mtime > StampOf(s, path) ==>
              (after.queued == before.queued + [full] <==> last.None? || f.mtime > StampOf(s, last.value))
  {
    AskedItems(c, store, s, s, path, d, k, true);
  }

  /** For example, with a directory below cur that was left at time 9, a message there
      that changed at time 5, after cur was left at time 1, is not queued. */
  lemma ChangedButNotQueued(c: Conf)
    requires !c.lazyCheck
    ensures var d := Dir("cur", 5, false, false, [Dir("x", 9, false, false, []), File("m", 0, 5)]);
            var s := Scan(map["/cur" := 1, "/cur/x" := 9], 1, []);
            ScanItems(c, {"/cur/m"}, s, "/cur", d, 2, true).queued == []
  {
    var x, m := Dir("x", 9, false, false, []), File("m", 0, 5);
    var d, s := Dir("cur", 5, false, false, [x, m]), Scan(map["/cur" := 1, "/cur/x" := 9], 1, []);
    assert Join("/cur", "x") == "/cur/x" && Join("/cur", "m") == "/cur/m";
    assert ScanItems(c, {"/cur/m"}, s, "/cur", d, 0, true) == s;
    assert ScanEntry(c, {"/cur/m"}, s, "/cur", x, true).queued == [] &&
      ScanEntry(c, {"/cur/m"}, s, "/cur", x, true).stamp == 9;
  }
}
