/** The deciders of a query: which documents the leader query and the related query
    keep, and what is remembered of them. */
module Deciders {
  import opened Wrappers

  datatype Flags = Flags(leader: bool, related: bool, unreadable: bool, duplicate: bool)

  datatype QueryFlags = QueryFlags(skipUnreadable: bool, skipDuplicates: bool)

  /** A document of the store: its id there, its message-id if it has one, its path,
      and whether its file can be read. */
  datatype Document = Document(docid: nat, msgid: Option<string>, path: string, readable: bool)

  /** The id that tells duplicates: a message without one goes by its path. */
  function EffectiveId(doc: Document): (id: string)
    ensures doc.msgid == Some(id) || (doc.msgid == None && doc.path == id)
  {
    if doc.msgid.Some? then doc.msgid.value else doc.path
  }

  datatype Info = Info(matches: map<nat, Flags>, ids: set<string>)

  function FlagsFor(info: Info, doc: Document): Flags {
    Flags(false, false, !doc.readable, EffectiveId(doc) in info.ids)
  }

  predicate ShouldInclude(q: QueryFlags, f: Flags) {
    !(q.skipDuplicates && f.duplicate) && !(q.skipUnreadable && f.unreadable)
  }

  /** The leader query remembers all it sees. */
  function Leader(info: Info, doc: Document): Info {
    var f := if doc.docid in info.matches then info.matches[doc.docid] else FlagsFor(info, doc);
    Info(info.matches[doc.docid := f.(leader := true)], info.ids + {EffectiveId(doc)})
  }

  /** The related query remembers what it keeps, with the related flag alone. */
  function Related(q: QueryFlags, info: Info, doc: Document): Info {
    if doc.docid in info.matches then info
    else
      var info' := info.(ids := info.ids + {EffectiveId(doc)});
      if ShouldInclude(q, FlagsFor(info, doc)) then
        info'.(matches := info.matches[doc.docid := Flags(false, true, false, false)])
      else info'
  }

  class MatchDecider {
    const qflags: QueryFlags
    var matches: map<nat, Flags>
    var ids: set<string>

    constructor (qflags: QueryFlags)
      ensures this.qflags == qflags && State() == Info(map[], {})
    {
      this.qflags, matches, ids := qflags, map[], {};
    }

    function State(): Info
      reads this
    {
      Info(matches, ids)
    }

    method MakeQueryMatch(doc: Document) returns (f: Flags)
      modifies `ids
      ensures f == FlagsFor(old(State()), doc) && ids == old(ids) + {EffectiveId(doc)}
    {
      var msgid := EffectiveId(doc);
      f := Flags(false, false, false, false);
      if msgid in ids { f := f.(duplicate := true); } else { ids := ids + {msgid}; }
      if !doc.readable { f := f.(unreadable := true); }
    }

    method DecideLeader(doc: Document) returns (keep: bool)
      modifies this
      ensures State() == Leader(old(State()), doc)
      ensures keep == ShouldInclude(qflags, State().matches[doc.docid])
    {
      var f := MakeQueryMatch(doc);
      if doc.docid !in matches { matches := matches[doc.docid := f]; }
      matches := matches[doc.docid := matches[doc.docid].(leader := true)];
      keep := ShouldInclude(qflags, matches[doc.docid]);
    }

    method DecideRelated(doc: Document) returns (keep: bool)
      modifies this
      ensures State() == Related(qflags, old(State()), doc)
      ensures keep == Keeps(qflags, old(State()), State(), Call(false, doc))
    {
      if doc.docid in matches { return ShouldInclude(qflags, matches[doc.docid]); }
      var f := MakeQueryMatch(doc);
      keep := ShouldInclude(qflags, f);
      if keep { matches := matches[doc.docid := Flags(false, true, false, false)]; }
    }
  }

  // A whole run

  datatype Call = Call(leader: bool, doc: Document)

  function Next(q: QueryFlags, info: Info, call: Call): Info {
    if call.leader then Leader(info, call.doc) else Related(q, info, call.doc)
  }

  /** Whether the call that led from info to info' kept its document. */
  predicate Keeps(q: QueryFlags, info: Info, info': Info, call: Call) {
    && call.doc.docid in info'.matches
    && (call.leader || call.doc.docid in info.matches ==> ShouldInclude(q, info'.matches[call.doc.docid]))
  }

  function Run(q: QueryFlags, calls: seq<Call>): Info {
    if calls == [] then Info(map[], {}) else Next(q, Run(q, calls[..|calls| - 1]), calls[|calls| - 1])
  }

  /** The documents kept by some call. */
  function Kept(q: QueryFlags, calls: seq<Call>): set<Document> {
    if calls == [] then {}
    else
      var init, last := calls[..|calls| - 1], calls[|calls| - 1];
      Kept(q, init) + if Keeps(q, Run(q, init), Run(q, calls), last) then {last.doc} else {}
  }

  /** The store gives the same document for an id every time. */
  predicate SameDocs(calls: seq<Call>) {
    forall c <- calls, d <- calls :: c.doc.docid == d.doc.docid ==> c.doc == d.doc
  }

  /** The documents seen, by id. */
  function Seen(calls: seq<Call>): map<nat, Document> {
    if calls == [] then map[] else Seen(calls[..|calls| - 1])[calls[|calls| - 1].doc.docid := calls[|calls| - 1].doc]
  }

  predicate Matched(info: Info, seen: map<nat, Document>, x: nat) {
    x in info.matches && x in seen && !info.matches[x].duplicate
  }

  /** The ids of matches that are no duplicates are noted. */
  ghost predicate Noted(info: Info, seen: map<nat, Document>) {
    && (forall x <- info.matches :: x in seen)
    && (forall x :: Matched(info, seen, x) ==> EffectiveId(seen[x]) in info.ids)
  }

  /** Matches that are no duplicates have ids of their own. */
  ghost predicate OwnIds(info: Info, seen: map<nat, Document>) {
    forall x, y :: Matched(info, seen, x) && Matched(info, seen, y) && EffectiveId(seen[x]) == EffectiveId(seen[y]) ==>
      x == y
  }

  /** The related query meets a new document with the id of a match that is no
      duplicate, and keeps it: its duplicate flag is then lost. */
  ghost predicate ForgetsDuplicate(q: QueryFlags, info: Info, seen: map<nat, Document>, call: Call) {
    && !call.leader && call.doc.docid !in info.matches && ShouldInclude(q, FlagsFor(info, call.doc))
    && exists x :: Matched(info, seen, x) && EffectiveId(seen[x]) == EffectiveId(call.doc)
  }

  lemma {:induction false} SeenSame(calls: seq<Call>)
    requires SameDocs(calls)
    ensures forall c <- calls :: c.doc.docid in Seen(calls) && Seen(calls)[c.doc.docid] == c.doc
    ensures forall x <- Seen(calls) :: exists c <- calls :: c.doc == Seen(calls)[x] && c.doc.docid == x
  {
    if calls != [] {
      var init, last := calls[..|calls| - 1], calls[|calls| - 1];
      SeenSame(init);
      assert calls == init + [last];
      forall x | x in Seen(calls) ensures exists c <- calls :: c.doc == Seen(calls)[x] && c.doc.docid == x {
        if x == last.doc.docid {
          assert last in calls;
        } else {
          var c :| c in init && c.doc == Seen(init)[x] && c.doc.docid == x;
          assert c in calls;
        }
      }
    }
  }

  /** One call keeps the ids apart if and only if it forgets no duplicate; and no
      call sets them apart again. */
  lemma StepKeepsOwnIdsIff(q: QueryFlags, info: Info, seen: map<nat, Document>, call: Call)
    requires Noted(info, seen) && (call.doc.docid in seen ==> seen[call.doc.docid] == call.doc)
    ensures Noted(Next(q, info, call), seen[call.doc.docid := call.doc])
    ensures OwnIds(Next(q, info, call), seen[call.doc.docid := call.doc]) <==>
            OwnIds(info, seen) && !ForgetsDuplicate(q, info, seen, call)
  {
    var info', seen', d := Next(q, info, call), seen[call.doc.docid := call.doc], call.doc.docid;
    forall x ensures Matched(info, seen, x) ==> Matched(info', seen', x) && seen'[x] == seen[x] {}
    forall x | Matched(info', seen', x) && (x != d || d in info.matches) ensures Matched(info, seen, x) {}
    if ForgetsDuplicate(q, info, seen, call) {
      assert Matched(info', seen', d);
    } else if Matched(info', seen', d) && d !in info.matches {
      forall x | Matched(info', seen', x) && EffectiveId(seen'[x]) == EffectiveId(call.doc) ensures x == d {}
    }
  }

  /** The i-th call of a run forgets a duplicate. */
  ghost predicate ForgetsAt(q: QueryFlags, calls: seq<Call>, i: nat)
    requires i < |calls|
  {
    ForgetsDuplicate(q, Run(q, calls[..i]), Seen(calls[..i]), calls[i])
  }

  /** Over a whole run: matches that are no duplicates have different ids if and only
      if no call forgets a duplicate. */
  lemma {:induction false} RunKeepsOwnIdsIff(q: QueryFlags, calls: seq<Call>)
    requires SameDocs(calls)
    ensures Noted(Run(q, calls), Seen(calls))
    ensures OwnIds(Run(q, calls), Seen(calls)) <==> forall i :: 0 <= i < |calls| ==> !ForgetsAt(q, calls, i)
  {
    hide ForgetsDuplicate, ForgetsAt, OwnIds, Noted, Next;
    if calls == [] {
      NothingMatched(q);
    } else {
      var n := |calls| - 1;
      LastAgrees(calls);
      RunKeepsOwnIdsIff(q, calls[..n]);
      StepKeepsOwnIdsIff(q, Run(q, calls[..n]), Seen(calls[..n]), calls[n]);
      forall i | 0 <= i < n ensures ForgetsAt(q, calls[..n], i) == ForgetsAt(q, calls, i) {
        ForgetsEarlier(q, calls, n, i);
      }
      ForgetsLast(q, calls);
    }
  }

  lemma ForgetsEarlier(q: QueryFlags, calls: seq<Call>, n: nat, i: nat)
    requires i < n <= |calls|
    ensures ForgetsAt(q, calls[..n], i) == ForgetsAt(q, calls, i)
  {
    assert calls[..n][..i] == calls[..i];
  }

  lemma ForgetsLast(q: QueryFlags, calls: seq<Call>)
    requires calls != []
    ensures var n := |calls| - 1;
            ForgetsAt(q, calls, n) == ForgetsDuplicate(q, Run(q, calls[..n]), Seen(calls[..n]), calls[n])
  {}

  lemma LastAgrees(calls: seq<Call>)
    requires SameDocs(calls) && calls != []
    ensures var init, last := calls[..|calls| - 1], calls[|calls| - 1];
            SameDocs(init) && (last.doc.docid in Seen(init) ==> Seen(init)[last.doc.docid] == last.doc)
  {
    var init, last := calls[..|calls| - 1], calls[|calls| - 1];
    assert last in calls && forall c <- init :: c in calls;
    SeenSame(init);
  }

  lemma NothingMatched(q: QueryFlags)
    ensures Noted(Run(q, []), Seen([])) && OwnIds(Run(q, []), Seen([]))
  {}

  /** So they have, if duplicates are skipped or all calls are the leader's. */
  lemma RunKeepsOwnIds(q: QueryFlags, calls: seq<Call>)
    requires SameDocs(calls) && (q.skipDuplicates || forall c <- calls :: c.leader)
    ensures OwnIds(Run(q, calls), Seen(calls))
  {
    forall i | 0 <= i < |calls| ensures !ForgetsAt(q, calls, i) {
      assert calls[i] in calls && forall c <- calls[..i] :: c in calls;
      RunKeepsOwnIdsIff(q, calls[..i]);
    }
    RunKeepsOwnIdsIff(q, calls);
  }

  lemma StaysMatched(q: QueryFlags, info: Info, seen: map<nat, Document>, call: Call, x: nat)
    requires q.skipDuplicates
    requires call.doc.docid in seen ==> seen[call.doc.docid] == call.doc
    ensures Matched(info, seen, x) ==> Matched(Next(q, info, call), seen[call.doc.docid := call.doc], x)
    ensures Keeps(q, info, Next(q, info, call), call) ==>
              Matched(Next(q, info, call), seen[call.doc.docid := call.doc], call.doc.docid)
  {}

  /** A kept document stays among the matches that are no duplicates. */
  lemma {:induction false} KeptAreMatched(q: QueryFlags, calls: seq<Call>, doc: Document)
    requires q.skipDuplicates && SameDocs(calls) && doc in Kept(q, calls)
    ensures Matched(Run(q, calls), Seen(calls), doc.docid) && Seen(calls)[doc.docid] == doc
  {
    hide Matched, Next, Keeps;
    var init, last := calls[..|calls| - 1], calls[|calls| - 1];
    SeenSame(calls);
    SeenSame(init);
    assert calls == init + [last];
    StaysMatched(q, Run(q, init), Seen(init), last, doc.docid);
    if doc in Kept(q, init) {
      KeptAreMatched(q, init, doc);
      assert exists c <- init :: c.doc == doc by { KeptIsCalled(q, init, doc); }
    }
  }

  lemma {:induction false} KeptIsCalled(q: QueryFlags, calls: seq<Call>, doc: Document)
    requires doc in Kept(q, calls)
    ensures exists c <- calls :: c.doc == doc
  {
    var init, last := calls[..|calls| - 1], calls[|calls| - 1];
    if doc in Kept(q, init) {
      KeptIsCalled(q, init, doc);
      var c :| c in init && c.doc == doc;
      assert c in calls;
    } else {
      assert last in calls;
    }
  }

  /** With duplicates skipped, the documents kept in both phases have distinct ids,
      whatever the order of the calls. */
  lemma KeptAreDistinct(q: QueryFlags, calls: seq<Call>, a: Document, b: Document)
    requires q.skipDuplicates && SameDocs(calls) && a in Kept(q, calls) && b in Kept(q, calls)
    ensures EffectiveId(a) == EffectiveId(b) ==> a == b
  {
    KeptAreMatched(q, calls, a);
    KeptAreMatched(q, calls, b);
    RunKeepsOwnIds(q, calls);
  }

  /** And none is lost: of the documents with an id, the first is kept, unless its
      file cannot be read and that matters. */
  lemma {:induction false} FirstIsKept(q: QueryFlags, calls: seq<Call>, i: nat)
    requires i < |calls| && SameDocs(calls) && (calls[i].doc.readable || !q.skipUnreadable)
    requires forall j :: 0 <= j < i ==> EffectiveId(calls[j].doc) != EffectiveId(calls[i].doc)
    ensures calls[i].doc in Kept(q, calls)
  {
    var init, last := calls[..|calls| - 1], calls[|calls| - 1];
    if i < |init| {
      assert init[i] == calls[i];
      FirstIsKept(q, init, i);
    } else {
      NotSeenBefore(q, init, last.doc);
    }
  }

  lemma {:induction false} NotSeenBefore(q: QueryFlags, calls: seq<Call>, doc: Document)
    requires forall j :: 0 <= j < |calls| ==> EffectiveId(calls[j].doc) != EffectiveId(doc)
    requires forall j :: 0 <= j < |calls| && calls[j].doc.docid == doc.docid ==> calls[j].doc == doc
    ensures EffectiveId(doc) !in Run(q, calls).ids && doc.docid !in Run(q, calls).matches
  {
    if calls != [] {
      NotSeenBefore(q, calls[..|calls| - 1], doc);
      assert calls[|calls| - 1].doc != doc;
    }
  }

  /** Otherwise two related documents with one id both count as no duplicates. */
  lemma RelatedForgetsDuplicates(q: QueryFlags, a: Document, b: Document)
    requires a.docid != b.docid && EffectiveId(a) == EffectiveId(b)
    requires !q.skipUnreadable || (a.readable && b.readable)
    ensures OwnIds(Run(q, [Call(false, a), Call(false, b)]), Seen([Call(false, a), Call(false, b)])) <==>
            q.skipDuplicates
  {
    var calls := [Call(false, a), Call(false, b)];
    RunKeepsOwnIdsIff(q, calls);
    assert calls[..0] == [] && calls[..1] == [calls[0]] && calls[..1][..0] == [];
    assert Run(q, []) == Info(map[], {});
    assert Run(q, calls[..1]) == Next(q, Run(q, []), calls[0]);
    var info, seen := Run(q, calls[..1]), Seen(calls[..1]);
    assert Seen(calls[..1]) == map[a.docid := a];
    assert Matched(info, seen, a.docid) && EffectiveId(a) in info.ids;
    assert ForgetsAt(q, calls, 1) <==> !q.skipDuplicates;
    assert !ForgetsAt(q, calls, 0);
  }

  // Exactly what is kept and remembered

  ghost predicate Called(calls: seq<Call>, doc: Document) { exists i :: 0 <= i < |calls| && calls[i].doc == doc }

  /** The i-th call is the first for a document of this id. */
  predicate FirstOf(calls: seq<Call>, i: nat, doc: Document) {
    i < |calls| && calls[i].doc == doc && forall j :: 0 <= j < i ==> EffectiveId(calls[j].doc) != EffectiveId(doc)
  }

  /** doc is to be kept: it can be read, if that matters, and was the first of its id,
      if that does. */
  ghost predicate ToKeep(q: QueryFlags, calls: seq<Call>, doc: Document) {
    && Called(calls, doc)
    && (q.skipUnreadable ==> doc.readable)
    && (q.skipDuplicates ==> exists i :: FirstOf(calls, i, doc))
  }

  predicate Passes(q: QueryFlags, info: Info, x: nat) { x in info.matches && ShouldInclude(q, info.matches[x]) }

  function IdsOf(calls: seq<Call>): set<string> {
    if calls == [] then {} else IdsOf(calls[..|calls| - 1]) + {EffectiveId(calls[|calls| - 1].doc)}
  }

  function DocidsOf(calls: seq<Call>): set<nat> {
    if calls == [] then {} else DocidsOf(calls[..|calls| - 1]) + {calls[|calls| - 1].doc.docid}
  }

  lemma {:induction false} IdsOfAre(calls: seq<Call>, id: string, x: nat)
    ensures id in IdsOf(calls) <==> exists i :: 0 <= i < |calls| && EffectiveId(calls[i].doc) == id
    ensures x in DocidsOf(calls) <==> exists i :: 0 <= i < |calls| && calls[i].doc.docid == x
  {
    if calls != [] {
      var n := |calls| - 1;
      IdsOfAre(calls[..n], id, x);
      assert forall i :: 0 <= i < n ==> calls[..n][i] == calls[i];
    }
  }

  lemma DocidTellsId(calls: seq<Call>, doc: Document)
    requires SameDocs(calls + [Call(true, doc)]) && doc.docid in DocidsOf(calls)
    ensures EffectiveId(doc) in IdsOf(calls)
  {
    IdsOfAre(calls, EffectiveId(doc), doc.docid);
    var i :| 0 <= i < |calls| && calls[i].doc.docid == doc.docid;
    var all := calls + [Call(true, doc)];
    assert all[i] in all && all[|calls|] in all;
  }

  /** The ids noted are those of all documents called; and matches are of called
      ones. */
  lemma {:induction false} IdsAreNoted(q: QueryFlags, calls: seq<Call>)
    requires SameDocs(calls)
    ensures Run(q, calls).ids == IdsOf(calls) && Run(q, calls).matches.Keys <= DocidsOf(calls)
  {
    hide ShouldInclude, FlagsFor;
    if calls != [] {
      var init, last := calls[..|calls| - 1], calls[|calls| - 1];
      LastAgrees(calls);
      IdsAreNoted(q, init);
      if last.doc.docid in Run(q, init).matches {
        assert SameDocs(init + [Call(true, last.doc)]) by { SameDocsAgain(calls); }
        DocidTellsId(init, last.doc);
      }
    }
  }

  lemma SameDocsAgain(calls: seq<Call>)
    requires SameDocs(calls) && calls != []
    ensures SameDocs(calls[..|calls| - 1] + [Call(true, calls[|calls| - 1].doc)])
  {
    var init, last := calls[..|calls| - 1], calls[|calls| - 1];
    var all := init + [Call(true, last.doc)];
    assert last in calls && forall c <- init :: c in calls;
  }

  lemma CalledBefore(q: QueryFlags, calls: seq<Call>, doc: Document)
    requires calls != [] && Called(calls[..|calls| - 1], doc)
    ensures Called(calls, doc) && (ToKeep(q, calls, doc) <==> ToKeep(q, calls[..|calls| - 1], doc))
  {
    var init := calls[..|calls| - 1];
    var k :| 0 <= k < |init| && init[k].doc == doc;
    assert calls[k] == init[k];
    forall i: nat ensures FirstOf(init, i, doc) <==> FirstOf(calls, i, doc) {
      assert forall j :: 0 <= j < |init| ==> init[j] == calls[j];
    }
  }

  /** A document called for the first time. */
  lemma NewlyCalled(q: QueryFlags, calls: seq<Call>)
    requires calls != [] && !Called(calls[..|calls| - 1], calls[|calls| - 1].doc)
    ensures var n, doc := |calls| - 1, calls[|calls| - 1].doc;
            ToKeep(q, calls, doc) <==>
              && (q.skipUnreadable ==> doc.readable)
              && (q.skipDuplicates ==> forall j :: 0 <= j < n ==> EffectiveId(calls[j].doc) != EffectiveId(doc))
  {
    var n, doc := |calls| - 1, calls[|calls| - 1].doc;
    assert forall j :: 0 <= j < n ==> calls[..n][j] == calls[j];
    assert forall i: nat :: FirstOf(calls, i, doc) ==> i == n;
    if forall j :: 0 <= j < n ==> EffectiveId(calls[j].doc) != EffectiveId(doc) { assert FirstOf(calls, n, doc); }
  }

  lemma OnlyCalledMatch(q: QueryFlags, calls: seq<Call>, doc: Document)
    requires SameDocs(calls) && calls != [] && calls[|calls| - 1].doc == doc
    requires !Called(calls[..|calls| - 1], doc)
    ensures doc.docid !in Run(q, calls[..|calls| - 1]).matches
  {
    var init, last := calls[..|calls| - 1], calls[|calls| - 1];
    LastAgrees(calls);
    IdsAreNoted(q, init);
    IdsOfAre(init, "", doc.docid);
    forall i | 0 <= i < |init| ensures init[i].doc.docid != doc.docid { assert init[i] in calls && last in calls; }
  }

  lemma NotedIfCalled(q: QueryFlags, calls: seq<Call>, doc: Document)
    requires SameDocs(calls)
    ensures EffectiveId(doc) in Run(q, calls).ids <==>
            exists i :: 0 <= i < |calls| && EffectiveId(calls[i].doc) == EffectiveId(doc)
    ensures Called(calls, doc) ==> EffectiveId(doc) in Run(q, calls).ids
  {
    IdsAreNoted(q, calls);
    IdsOfAre(calls, EffectiveId(doc), 0);
  }

  /** The verdict on a document is the same in every call for it, from either query. */
  lemma {:induction false} VerdictIs(q: QueryFlags, calls: seq<Call>, doc: Document)
    requires SameDocs(calls) && Called(calls, doc)
    ensures Passes(q, Run(q, calls), doc.docid) <==> ToKeep(q, calls, doc)
  {
    hide Called;
    var n := |calls| - 1;
    CalledIs(calls, doc);
    var init, last := calls[..n], calls[n];
    LastAgrees(calls);
    if last.doc != doc {
      VerdictIs(q, init, doc);
      CalledBefore(q, calls, doc);
    } else if Called(init, doc) {
      VerdictIs(q, init, doc);
      CalledBefore(q, calls, doc);
      NotedIfCalled(q, init, doc);
    } else {
      NewlyCalled(q, calls);
      OnlyCalledMatch(q, calls, doc);
      NotedIfCalled(q, init, doc);
      assert forall j :: 0 <= j < n ==> init[j] == calls[j];
    }
  }

  lemma CalledIs(calls: seq<Call>, doc: Document)
    requires Called(calls, doc) && SameDocs(calls)
    ensures calls != []
    ensures var n := |calls| - 1; calls[n].doc == doc || (Called(calls[..n], doc) && calls[n].doc.docid != doc.docid)
  {
    var i :| 0 <= i < |calls| && calls[i].doc == doc;
    var n := |calls| - 1;
    assert calls[i] in calls && calls[n] in calls;
    if i < n { assert calls[..n][i] == calls[i]; }
  }

  lemma KeepsIsPasses(q: QueryFlags, info: Info, call: Call)
    ensures Keeps(q, info, Next(q, info, call), call) <==> Passes(q, Next(q, info, call), call.doc.docid)
  {}

  /** What is kept, whatever the order of the calls: the documents that can be read, if
      unreadable ones are skipped, and that were the first called of their id, if
      duplicates are. */
  lemma {:induction false} KeptExactly(q: QueryFlags, calls: seq<Call>, doc: Document)
    requires SameDocs(calls)
    ensures doc in Kept(q, calls) <==> ToKeep(q, calls, doc)
  {
    hide ToKeep, Next, Keeps, Passes;
    if calls == [] {
      NoneToKeep(q, doc);
    } else {
      var n := |calls| - 1;
      LastAgrees(calls);
      KeptExactly(q, calls[..n], doc);
      KeepsIsPasses(q, Run(q, calls[..n]), calls[n]);
      if calls[n].doc == doc {
        assert Called(calls, doc);
        VerdictIs(q, calls, doc);
        if doc in Kept(q, calls[..n]) { KeptWasCalled(q, calls, doc); }
      } else if Called(calls, doc) {
        CalledIs(calls, doc);
        CalledBefore(q, calls, doc);
      } else {
        UncalledIsNotKept(q, calls, doc);
      }
    }
  }

  lemma NoneToKeep(q: QueryFlags, doc: Document)
    ensures !ToKeep(q, [], doc)
  {}

  lemma KeptWasCalled(q: QueryFlags, calls: seq<Call>, doc: Document)
    requires calls != [] && ToKeep(q, calls[..|calls| - 1], doc)
    ensures ToKeep(q, calls, doc)
  {
    CalledBefore(q, calls, doc);
  }

  lemma UncalledIsNotKept(q: QueryFlags, calls: seq<Call>, doc: Document)
    requires calls != [] && !Called(calls, doc)
    ensures !ToKeep(q, calls, doc) && !ToKeep(q, calls[..|calls| - 1], doc)
  {
    if Called(calls[..|calls| - 1], doc) { CalledBefore(q, calls, doc); }
  }

  /** The flags remembered: those of the first call from the leader, with the leader
      flag; and the related flag alone for what only the related query kept. */
  lemma {:induction false} LeaderIsMarked(q: QueryFlags, calls: seq<Call>, doc: Document)
    requires SameDocs(calls)
    ensures var info, led := Run(q, calls), exists i :: 0 <= i < |calls| && calls[i] == Call(true, doc);
            && (led ==> doc.docid in info.matches)
            && (Called(calls, doc) && doc.docid in info.matches ==>
                  && (info.matches[doc.docid].leader <==> led)
                  && (!led ==> info.matches[doc.docid] == Flags(false, true, false, false)))
  {
    if calls != [] {
      var n := |calls| - 1;
      LastAgrees(calls);
      LeaderIsMarked(q, calls[..n], doc);
      assert forall j :: 0 <= j < n ==> calls[..n][j] == calls[j];
      if Called(calls, doc) { CalledIs(calls, doc); }
      if calls[n].doc == doc && !Called(calls[..n], doc) { OnlyCalledMatch(q, calls, doc); }
      forall i | 0 <= i < |calls| && calls[i] == Call(true, doc)
        ensures calls[i].doc.docid != calls[n].doc.docid || calls[n].doc == doc
      {
        assert calls[i] in calls && calls[n] in calls;
      }
    }
  }
}
