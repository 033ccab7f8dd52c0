/** Building the id-table from the query results. */
module TableBuilding {
  import opened Wrappers
  import opened Forests
  import opened IdTableSpec
  import opened IdTableProofs
  import opened ThreadHeap
  import opened TableHeap
  import opened TakenNames
  import opened Containers

  /** Sets the date and the match of c. */
  method SetContent(table: IdTable, c: Container, date: string, qm: QueryMatch?)
    requires Linked(table) && Stored(table, c)
    modifies c`threadDateKey, c`queryMatch
    ensures Linked(table)
    ensures Snap(table) == var h := old(Snap(table)); h[c.id := h[c.id].(key := date, stored := qm)]
  {
    assert c.id in table && table[c.id] == c;
    hide Stored;
    ghost var h := Snap(table)[c.id := Snap(table)[c.id].(key := date, stored := qm)];
    c.threadDateKey, c.queryMatch := date, qm;
    forall y | y in table ensures LinkedAt(table, y) { assert old(LinkedAt(table, y)); }
    forall y | y in table ensures CellOf(table[y]) == h[y] {
      assert LinkedAt(table, y);
      assert y != c.id ==> table[y] != c;
    }
    SnapIs(table, h);
  }

  /** Stores a match and its date in the container for x. */
  method StoreMatch(table: IdTable, x: Id, date: string, qm: QueryMatch) returns (table': IdTable, c: Container)
    requires Linked(table)
    modifies table.Values`threadDateKey, table.Values`queryMatch
    ensures Linked(table') && Stored(table', c) && c.id == x
    ensures Snap(table') == StoreResult(old(Snap(table)), x, date, qm)
    ensures Keeps(table, table') && forall x <- table' :: x !in table ==> fresh(table'[x])
  {
    table', c := FindOrCreate(table, x);
    assert x in table ==> table[x] in table.Values;
    SetContent(table', c, date, if c.queryMatch == null then qm else c.queryMatch);
  }

  /** Steps 1.A and 1.B for one result. */
  method ProcessResult(table: IdTable, m: Message, qm: QueryMatch, ghost f: Forest) returns (table': IdTable)
    requires Linked(table) && Holds(Snap(table), f)
    modifies table.Values`threadDateKey, table.Values`queryMatch, table.Values`children, table.Values`parent
    ensures Linked(table') && Snap(table') == AddResult(old(Snap(table)), f, m, qm)
    ensures Keeps(table, table') && forall x <- table' :: x !in table ==> fresh(table'[x])
  {
    hide Snap, Linked, Holds;
    var x := EffectiveId(m);
    StoreHolds(Snap(table), f, x, DateOf(m), qm);
    var container, parentRef;
    table', container := StoreMatch(table, x, DateOf(m), qm);
    ChainEndsWithLink(Snap(table'), Ensure(f, x), m.refs, x);
    table', parentRef := LinkReferences(table', m.refs, Ensure(f, x));
    if parentRef != null {
      LinkUnlessLoop(table', parentRef, container, Chain(Ensure(f, x), None, m.refs));
    }
  }

  /** Hangs a container for each duplicate whose id the table has. */
  method HandleDuplicates(table: IdTable, dups: seq<(Id, nat)>, matches: seq<QueryMatch>) returns (table': IdTable)
    requires Linked(table) && forall d <- dups :: d.1 < |matches|
    modifies table.Values`children, table.Values`parent
    ensures Linked(table') && Snap(table') == AddDuplicates(old(Snap(table)), dups, matches).0
    ensures Keeps(table, table') && forall x <- table' :: x !in table ==> fresh(table'[x])
  {
    table' := table;
    var n := 0;
    for i := 0 to |dups|
      invariant Linked(table')
      invariant (Snap(table'), n) == AddDuplicates(old(Snap(table)), dups[..i], matches)
      invariant Keeps(table, table') && forall x <- table' :: x !in table ==> fresh(table'[x])
    {
      assert dups[..i + 1][..i] == dups[..i];
      table', n := HandleDuplicate(table', n, dups[i], matches);
    }
    assert dups[..|dups|] == dups;
  }

  /** A container for the match under the given name; if that name is taken, the
      container that has it. */
  method Emplace(table: IdTable, name: Id, qm: QueryMatch) returns (table': IdTable, c: Container)
    requires Linked(table)
    ensures Linked(table') && Stored(table', c) && c.id == name
    ensures Snap(table') == var h := Snap(table); if name in h then h else h[name := BLANK.(stored := qm)]
    ensures if name in table then table' == table else table' == table[name := c] && fresh(c)
  {
    if name in table {
      assert LinkedAt(table, name);
      table', c := table, table[name];
    } else {
      c := new Container(name, qm);
      table' := table[name := c];
      forall y | y in table' ensures LinkedAt(table', y) { assert y in table ==> LinkedAt(table, y); }
    }
  }

  method HandleDuplicate(table: IdTable, n: nat, dup: (Id, nat), matches: seq<QueryMatch>)
    returns (table': IdTable, n': nat)
    requires Linked(table) && dup.1 < |matches|
    modifies table.Values`children, table.Values`parent
    ensures Linked(table') && (Snap(table'), n') == AddOneDuplicate(old(Snap(table)), n, dup, matches)
    ensures Keeps(table, table') && forall x <- table' :: x !in table ==> fresh(table'[x])
  {
    table', n' := table, n;
    if dup.0 in table {
      assert LinkedAt(table, dup.0);
      n' := n + 1;
      var c;
      table', c := Emplace(table, DupName(n'), matches[dup.1]);
      assert table[dup.0] in table.Values && (c.id in table ==> table[c.id] in table.Values);
      Hang(table', table[dup.0], c);
    }
  }

  lemma DupsStep(ms: seq<Message>, i: nat)
    requires i < |ms|
    ensures if ms[i].duplicate
            then
              && Main(ms[..i + 1]) == Main(ms[..i])
              && Dups(ms[..i + 1]) == InsertDup(Dups(ms[..i]), (EffectiveId(ms[i]), i))
            else Dups(ms[..i + 1]) == Dups(ms[..i])
  {
    assert ms[..i + 1][..i] == ms[..i];
  }

  /** Builds the id-table.  It is a forest exactly where the names made up for
      duplicates leave one, and then has the containers, links, matches and dates of
      Build; in any case it is the table of the other results with the duplicates
      hung up one by one. */
  method DetermineIdTable(results: seq<Message>, matches: seq<QueryMatch>) returns (table: IdTable, ghost main: Heap)
    requires |results| == |matches|
    ensures Linked(table) && forall x <- table :: fresh(table[x])
    ensures Represents(main, Main(results), matches) && forall d <- Dups(results) :: d.1 < |matches|
    ensures Snap(table) == AddDuplicates(main, Dups(results), matches).0
    ensures StaysForest(results) ==> Represents(Snap(table), Build(results), matches)
    ensures IsForest(Snap(table)) <==> StaysForest(results)
  {
    table := map[];
    EmptyRepresents(matches);
    assert Linked(table) && Snap(table) == map[] && results[..0] == [] && Dups([]) == [];
    hide Snap, Linked, Represents, Main, Dups, Build, StaysForest, AddDuplicates, IsForest;
    var dups: seq<(Id, nat)> := [];
    for i := 0 to |results|
      invariant Linked(table) && forall x <- table :: fresh(table[x])
      invariant Represents(Snap(table), Main(results[..i]), matches)
      invariant dups == Dups(results[..i])
    {
      DupsStep(results, i);
      if results[i].duplicate {
        dups := InsertDup(dups, (EffectiveId(results[i]), i));
      } else {
        MainRepresents(Snap(table), results, i, matches);
        table := ProcessResult(table, results[i], matches[i], Main(results[..i]).forest);
      }
    }
    assert results[..|results|] == results;
    main := Snap(table);
    BuildRepresents(main, results, matches);
    TableIsForestIff(main, results, matches);
    table := HandleDuplicates(table, dups, matches);
  }
}
