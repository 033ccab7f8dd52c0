# A verified model of mu

mu indexes and searches mail in maildirs.  This project models the parts of it that
do the hard work and proves what they are for.  The modules follow the program:

* **Threads** (`lib/mu-query-threads.cc`).  `Forest`, `IdTable`, `Pruning`, `Sorting` and
  `ThreadPaths` say what the steps of the threader do, as functions on forests.  `Container`,
  `TableBuilding`, `PruningTable`, `SortingTable`, `UpdatingTable` and `ThreaderTable` are the
  program itself: containers with parent and child pointers that are linked, spliced, sorted
  and written in place, each method proved against those functions.  `ThreadHeap`,
  `TableHeap`, `PruneHeap`, `PruneRoots` and `SortHeap` lie between the two: a table of
  containers as a map from ids to cells, and the forest it holds.  `ThreadLinks`,
  `TakenNames` and `Threader` draw the conclusions; `TableDates` and `ThreadKeys` say what the
  dates and the keys of the messages are; and `ThreadedQuery` follows it all to the documents
  shown (`lib/mu-query.cc`).
* **Queries** (`lib/mu-tokenizer.cc`, `lib/mu-parser.cc`, `lib/mu-xapian.cc`).  `Tokenizer`
  holds the loop and what it computes; `Grammar` the rules on token lists, `QueryLeaf` their
  leaves, and `QueryParser` the parser that takes tokens from a shared list.  `TokenTexts`
  says how texts of any layout are read, and `Syntax` which queries are accepted and what
  trees they give; `QueryWarnings` what the warnings mean.  `XapianQuery` has the translation,
  and `QuerySearch` the documents found, from the text of a query on.
* **S-expressions and commands** (`lib/utils/mu-sexp.cc`, `lib/utils/mu-command-parser.cc`).
  `Sexp` and `SexpParser` parse and print, `SexpRoundTrip` relates the two, and `SexpGrammar`
  and `SexpErrors` say, in characters, which texts are accepted and what is said of others.
  `Command` validates calls and reads their parameters.
* **Indexing** (`lib/index`, `lib/utils/mu-async-queue.hh`).  `Indexer` is a state machine:
  scanner, workers and the calls of start and stop, each a sequence of atomic steps that may
  interleave in any way.  The history of the queue is part of the state.  `Scanner` is the walk
  over the maildir, `ScannedMessages` what it finds and remembers, `AsyncQueue` the queue.
* **Smaller parts**: `Deciders` (duplicates in query results), `Contacts` (the cache of
  addresses), `Flags` and `Maildir` (paths that carry flags).

`Wrappers`, `Ascii`, `ByteStrings`, `Decimal` and `Substrings` are shared.

## What was found

Some properties do not hold of the code as it is.  The model keeps the code, and says
when they hold.

* Without skipping duplicates, the related query overwrites the duplicate flag
  (`lib/mu-query-match-deciders.cc:184`), so two results that count as no duplicates may have
  one id.  `Deciders.RunKeepsOwnIdsIff` says exactly in which runs, and
  `RelatedForgetsDuplicates` gives one.  The threader then stores the first only; the second
  gets no path and disappears from a threaded view.  `Placed` says exactly which results have
  a place, and `AllPlacedIffDistinct` when none is lost.
* The names `dup-1`, `dup-2` … made up for duplicates may be ids of messages.  Then the
  message of that id is hung up in place of the duplicate, which gets no path
  (`DupsArePlacedIffNamesAreFresh`), and if that message hangs somewhere already, or stands
  above the duplicate, the table is no forest any more.  `TakenNames.TableIsForestIff` says
  exactly when it stays one, which is what the theorems about the threader assume
  (`StaysForest`); `TakenNameClosesLoop` is an example.
* Dates bubble up without regard to the date of the parent.  The keys are the newest dates
  of the subtrees exactly when no container is newer than all its dated descendants
  (`Sorting.NewerParentLosesDate` is an example).
* An operand that is blank, as a regular expression without matching terms is, is dropped
  when it stands on the right: `a and /z/` finds all of `a`.  On the left of an AND it finds
  nothing.  `QuerySearch.FindsExactly` says for every query which documents it finds, and
  `BlankRightIsDropped` for which of them an AND is wrong.
* A closing bracket too many ends the query: what follows it is dropped without a warning.
* The last word of a query is data even if it is an operator, as only a separator behind a
  word makes it one.
* A quote behind a backslash is no character of a word: it opens a quotation
  (`TokenTexts.EscapedQuoteOpens`).
* The warnings for a wrong token in place of a closing bracket or of OR and XOR are never given
  (`QueryWarnings.WarningsAreTrue`).
* A list of blanks alone, `( )`, is not read as the empty list `()` is: the parser expects an
  s-expression there (`SexpGrammar.AcceptsExactly`).  A lone hyphen is read as the number 0.
* The comment at `lib/mu-parser.cc:27` has AND and OR swapped; the rules below it, and the
  model, bind AND tighter than OR and XOR.
* The documentation of commands (`lib/utils/mu-command-parser.hh`) allows `nil` for
  parameters that are not required; the code accepts it for required ones as well, and the
  getters then give their alternative.
* `stop` joins the workers while a worker may still be about to start another one, having
  read the queue's size before the queue was cleared.  Its list of workers then changes while
  it is gone through (`Indexers.StaleWorkerBreaksStop`); `OnlyStaleWorkersBreak` says that
  nothing else does this.
* A `stop` that finds the state idle and the queue empty returns at once, though a worker of
  the finished run may still hold a path (`Indexers.EarlyStopExample`).
  `StopLeavesNoThreadsIff` says when no thread is left.
* The stamp of a directory is not restored after a directory below it
  (`lib/index/mu-indexer.cc:123`), so a changed message may not be queued again
  (`Scanners.ChangedIsQueuedIff`, `ChangedButNotQueued`).
* The order the bounds of a range are written in matters when both ways make a range
  (`QueryLeaf.RangeBoundsAreOrdered`).
* The marks `.noindex` and `.noupdate` of the root directory itself are not looked at.
* A message that passes through `new` loses its custom flags and its own separator
  (`Maildirs.RewriteThroughNew`); a custom flag `2` hides the flags when they are read back
  (`Maildirs.FlagsComeBack`), and custom flags that look like a separator are taken for it
  (`Maildirs.NameBack`).
* A contact with the separator or a line end in its texts is not read back
  (`Contacts.SerializeTable`).

## Model

| member | source | states |
|---|---|---|
| `Containers.Container.AddChild` | lib/mu-query-threads.cc:44-47 | the new child gets this parent and becomes the last child |
| `Containers.Container.RemoveChild` | lib/mu-query-threads.cc:48-51 | the first occurrence of the child is erased, nothing else |
| `Containers.Container.UrParent` | lib/mu-query-threads.cc:97-100 | climbing ends, at the root of the tree that holds the container |
| `Containers.Container.IsReachable` | lib/mu-query-threads.cc:65-68 | true exactly for containers of one tree |
| `Containers.LinkUnlessLoop` | lib/mu-query-threads.cc:218-223 | the table changes by one link if the container has no parent and the link closes no loop, and not at all otherwise |
| `Containers.LinkReferences` | lib/mu-query-threads.cc:194-226 | after a References chain the table is the one the chain function gives; old containers stay, new ones are fresh |
| `ThreadLinks.ParentsAndChildrenAgree` | lib/mu-query-threads.cc:44-51 | p lists c, once, if and only if p is the parent of c |
| `ThreadLinks.ClimbingEnds` | lib/mu-query-threads.cc:97-100 | climbing from any container reaches its root after finitely many steps and never the container itself again |
| `IdTableSpec.LinkKeepsForest` | lib/mu-query-threads.cc:218-223 | an allowed link keeps a forest of the same containers |
| `IdTableSpec.LinkAbove` | lib/mu-query-threads.cc:218-223 | a link adds exactly the pairs of p or an ancestor of it and x or a descendant of it |
| `IdTableSpec.LinkParent` | lib/mu-query-threads.cc:218-223 | a link changes the parent of x only |
| `IdTableProofs.TableIds` | lib/mu-query-threads.cc:155-226 | the containers are exactly the ids and references of the results that are no duplicates |
| `IdTableProofs.LinksAreWrittenOnce` | lib/mu-query-threads.cc:209-234 | later results keep every container, parent and ancestor |
| `IdTableProofs.LinksAreJustified` | lib/mu-query-threads.cc:197-234 | a parent is always the predecessor in the chain of some result |
| `IdTableProofs.LinksAreHonoured` | lib/mu-query-threads.cc:209-234 | of two neighbours in a chain the second hangs somewhere, unless linking them would close a loop |
| `IdTableProofs.MainSlots` | lib/mu-query-threads.cc:167-179 | the first result of an id is stored, once, and nothing else |
| `IdTableProofs.DupsAre` | lib/mu-query-threads.cc:157-161 | the duplicates are set aside by their ids, those of one id in the order of the results |
| `IdTableProofs.AddDupsKeepsForest` | lib/mu-query-threads.cc:129-146 | where each duplicate can be hung up, the table stays a forest with all its links, and gets one container for each name that was free |
| `IdTableProofs.FreshNamesHang` | lib/mu-query-threads.cc:137-144 | fresh names are enough for that |
| `IdTableProofs.AddDupsStores` | lib/mu-query-threads.cc:129-146 | stored are, once each, exactly the duplicates that are hung up under a free name |
| `IdTableProofs.BuildPlaces` | lib/mu-query-threads.cc:148-241 | the table is a forest that keeps all earlier links, and the results stored in it are exactly the placed ones |
| `IdTableProofs.FoundDups` | lib/mu-query-threads.cc:134-144 | a duplicate has a place only if the table has its id; with fresh names each whose id is in the table of the other results has one |
| `IdTableProofs.DupsArePlacedIffNamesAreFresh` | lib/mu-query-threads.cc:140-144 | every duplicate that is hung up has a place if and only if no made-up name was taken |
| `IdTableProofs.AllPlacedIffDistinct` | lib/mu-query-threads.cc:167-179 | every result that is no duplicate has a place if and only if these have different ids |
| `IdTableProofs.DupsHangBelow` | lib/mu-query-threads.cc:129-146 | each duplicate that is hung up is a child of the container of its id under its made-up name, and is stored there if that name was free |
| `TableDates.MainDatesAre` | lib/mu-query-threads.cc:186-187 | a date is kept for exactly the ids of results that are no duplicates |
| `TableDates.KeyIsDate` | lib/mu-query-threads.cc:186-187 | it is the date of the last such result, empty without one, and the duplicates leave it alone |
| `TakenNames.AddDupKeepsForestIff` | lib/mu-query-threads.cc:140-144 | hanging up one duplicate leaves a forest if and only if its name is free, or names a root that is not the root above the message |
| `TakenNames.DuplicatesKeepForestIff` | lib/mu-query-threads.cc:129-146 | so do all duplicates if and only if each can be hung up at its turn; otherwise some container is a child in two places or its own descendant |
| `TakenNames.TableIsForestIff` | lib/mu-query-threads.cc:236-240 | the table of a run is a forest exactly for the runs the theorems about the threader are about |
| `TakenNames.TakenNameClosesLoop` | lib/mu-query-threads.cc:140-144 | the table of a message without references and a duplicate of it is a forest if and only if their id is not dup-1 |
| `TableBuilding.ProcessResult` | lib/mu-query-threads.cc:155-235 | one result adds its match, its date, its chain and its own link |
| `TableBuilding.HandleDuplicates` | lib/mu-query-threads.cc:129-146 | the table after the duplicates is the one the specification gives |
| `TableBuilding.DetermineIdTable` | lib/mu-query-threads.cc:148-241 | for all results the table of the others with the duplicates hung up in turn; it is a forest exactly where the names leave one, and then has the containers, links, matches and dates of the built forest |
| `Pruning.PruneLevelNodes` | lib/mu-query-threads.cc:306-325 | below a container exactly the messages are left |
| `Pruning.PruneLevelAbove` | lib/mu-query-threads.cc:306-325 | below a container, who descends from whom is as before |
| `Pruning.PruningPreservesThreads` | lib/mu-query-threads.cc:280-344 | no message is lost, ancestors and trees are as before, and an empty container is left only as a root with two or more children |
| `PruneHeap.SplicingPrunes` | lib/mu-query-threads.cc:304-309 | pruning every child and then splicing the empty ones out, last one first, is the recursive pruning |
| `PruneHeap.MovingSplices` | lib/mu-query-threads.cc:280-296 | moving the children up one by one and removing the container is a splice |
| `PruningTable.Prune` | lib/mu-query-threads.cc:280-296 | the container is spliced out and marked, its children go to its parent or become roots |
| `PruningTable.PruneEmptyContainer` | lib/mu-query-threads.cc:299-329 | the level below is pruned, nothing else changes, and the answer says whether the container goes as well |
| `PruneRoots.VisitPrunes` | lib/mu-query-threads.cc:332-344 | visiting a table entry prunes its tree if it is a root and changes nothing otherwise |
| `PruningTable.PruneEmptyContainers` | lib/mu-query-threads.cc:332-344 | for any order of the table, the live containers are those of the pruned forest, and all others are marked |
| `SortingTable.SortByKey` | lib/mu-query-threads.cc:487-490 | a permutation in ascending order of the date keys |
| `SortingTable.SortContainer` | lib/mu-query-threads.cc:474-497 | the level becomes its sorted form, with the final key of every container |
| `SortingTable.SortThreads` | lib/mu-query-threads.cc:500-537 | the root set and all threads are sorted, whatever the table order |
| `Sorting.LastIsNewest` | lib/mu-query-threads.cc:492-496 | the last of sorted siblings has the newest key of all |
| `Sorting.BubblingIsNewest` | lib/mu-query-threads.cc:492-496 | the keys become the newest dates of the subtrees if and only if no container is newer than all its dated descendants |
| `Sorting.NewerParentLosesDate` | lib/mu-query-threads.cc:492-496 | a message and one reply: the newest date is lost if and only if the reply is the older one |
| `Sorting.OrderedThreadsBubble` | lib/mu-query-threads.cc:492-496 | it is enough that no dated message is older than a dated ancestor |
| `TableDates.LeafDate` | lib/mu-query-threads.cc:591-596 | the thread date of a stored message without replies is the date of the last result with its id |
| `TableDates.ThreadDateIsNewest` | lib/mu-query-threads.cc:492-496 | where no message is newer than all its dated replies, its thread date is the newest date of itself and all below it |
| `TableDates.SiblingsByThreadDate` | lib/mu-query-threads.cc:487-490 | the threads, and the children of every container, stand in ascending order of their thread dates |
| `Sorting.ShuffleAbove` | lib/mu-query-threads.cc:474-497 | permuting siblings keeps who descends from whom |
| `ThreadPaths.SegSize` | lib/mu-query-threads.cc:459-460 | the least number of hexadecimal digits that can count n things |
| `ThreadPaths.SegmentOrder` | lib/mu-query-threads.cc:354-367 | segments that fit have one width, and byte order is numeric order |
| `ThreadPaths.SiblingSegmentOrder` | lib/mu-query-threads.cc:415-420 | inverted segments have one width and come out of a reverse sort in sibling order |
| `ThreadPaths.KeysStart` | lib/mu-query-threads.cc:433-450 | all keys below a path start with its text, a colon and a digit |
| `ThreadPaths.ParentFirst` | lib/mu-query-threads.cc:422-427 | a parent's key comes before all keys below it, in either kind of sort |
| `ThreadPaths.AscendingInOrder` | lib/mu-query-threads.cc:386-471 | ascending, the keys follow the walk of the forest |
| `ThreadPaths.DescendingInOrder` | lib/mu-query-threads.cc:386-471 | in reverse byte order they follow the walk with the roots reversed, parents still first and siblings still ascending |
| `ThreadPaths.SortingByPathShowsThreads` | lib/mu-query-threads.cc:452-471 | whatever sort by key is used, its result is that walk |
| `ThreadKeys.SegmentIs` | lib/mu-query-threads.cc:354-367 | a segment is a hexadecimal numeral in small figures with just as many zeros before it as make it wide enough |
| `ThreadKeys.SegSizeIs` | lib/mu-query-threads.cc:459-460 | with one digit less, there would be too few numbers |
| `ThreadKeys.KeyComesApart` | lib/mu-query-threads.cc:354-367 | at its colons a key comes apart into the segments of its path and, in a descending sort, a z |
| `UpdatingTable.PathToString` | lib/mu-query-threads.cc:354-367 | the segments of a path, padded and joined by colons |
| `UpdatingTable.UpdateContainer` | lib/mu-query-threads.cc:386-430 | the path and level of one match are written; in a descending sort a child's last segment stays inverted for what follows |
| `UpdatingTable.UpdateContainers` | lib/mu-query-threads.cc:433-450 | the matches below a container get exactly the keys of the specification |
| `UpdatingTable.UpdateThreads` | lib/mu-query-threads.cc:452-471 | so do those of all threads |
| `Threader.ThreadingIsForest` | lib/mu-query-threads.cc:567-599 | the threads form a forest of all stored messages, with other containers only as branching roots |
| `Threader.ThreadingKeepsThreads` | lib/mu-query-threads.cc:567-599 | who answers whom, and who shares a thread and so a root, is as in the table |
| `Threader.ThreadsAreShown` | lib/mu-query-threads.cc:567-599 | sorting by thread path shows each message once, parents before children, siblings by date, and the threads by date |
| `Threader.EveryMessageHasAKey` | lib/mu-query-threads.cc:567-599 | each stored message gets exactly one key, and it is not empty |
| `Threader.LevelIsDepth` | lib/mu-query-threads.cc:422-423 | the level of a message is the number of containers above it |
| `ThreadKeys.KeysTellPlaces` | lib/mu-query-threads.cc:415-427 | its key shows its place: one numeral for the place among its siblings at each step down from the roots, which in a descending sort counts down, but for the first |
| `ThreaderTable.SetThreadDates` | lib/mu-query-threads.cc:591-596 | each stored match gets the final date key of its container |
| `ThreaderTable.CalculateThreads` | lib/mu-query-threads.cc:567-605 | each stored match carries its path, level and date, and the results with a path are exactly the placed ones |
| `ThreadedQuery.ThreadDecider.Decide` | lib/mu-query-match-deciders.cc:212-218 | a document is kept if and only if its match has a path |
| `ThreadedQuery.RunThreaded` | lib/mu-query.cc:128-146 | afterwards that keeps exactly the documents of the placed results, and whatever sort by path is used they come out as the walk of the threads |
| `Tokenizer.Eat` | lib/mu-tokenizer.cc:65-115 | every call eats something, and a token's position is that of its end |
| `Tokenizer.EatToken` | lib/mu-tokenizer.cc:65-115 | the loop computes the token, the food left and the new position |
| `Tokenizer.Tokenize` | lib/mu-tokenizer.cc:118-133 | all tokens of the text, in order |
| `Tokenizer.PositionsIncrease` | lib/mu-tokenizer.cc:127-130 | positions strictly increase, up to the end of the text |
| `Tokenizer.EatQuoted` | lib/mu-tokenizer.cc:77-91 | a quoted text with doubled backslashes is read back as it was |
| `Tokenizer.EatText` | lib/mu-tokenizer.cc:93-114 | the text of a token is eaten whole before a blank or the end; an operator at the end is data |
| `Tokenizer.RoundTrip` | lib/mu-tokenizer.cc:65-133 | writing tokens and reading them gives the same tokens if and only if the last one is no operator |
| `TokenTexts.EatLexeme` | lib/mu-tokenizer.cc:65-115 | a word, quotation or bracket is eaten whole before anything that ends it: for a word a blank, a bracket or the end, for the others anything |
| `TokenTexts.LineIsRead` | lib/mu-tokenizer.cc:65-133 | any layout of words, quotations, brackets and blanks gives its tokens, where no two words touch |
| `TokenTexts.OperatorsInAnyCase` | lib/mu-tokenizer.cc:40-56 | the four operators are known in any mixture of capital and small letters, and no other word is one |
| `TokenTexts.WordBeforeBracket` | lib/mu-tokenizer.cc:93-106 | a word ends before a blank or bracket, which is left for the next token |
| `TokenTexts.QuoteInWord` | lib/mu-tokenizer.cc:83-91 | a quotation inside a word is part of it, and ends it |
| `TokenTexts.EscapedQuoteOpens` | lib/mu-tokenizer.cc:77-91 | an escaped quote opens a quotation and is no character of it |
| `TokenTexts.UnclosedQuote` | lib/mu-tokenizer.cc:83-115 | a quotation without end reaches to the end of the text |
| `TokenTexts.LoneBackslash` | lib/mu-tokenizer.cc:77-115 | a backslash at the end is no character, and the word before it is data |
| `QueryLeaf.DataLeaf` | lib/mu-parser.cc:329-371 | a leaf is always well formed and warns of invalid fields and expressions only |
| `QueryLeaf.EmptyLeaf` | lib/mu-parser.cc:273-305 | a leaf is empty if and only if it is a valid regular expression that no term matches |
| `QueryLeaf.MakeValue` | lib/mu-parser.cc:244-271 | one value for each field of a search |
| `QueryLeaf.MakeRegex` | lib/mu-parser.cc:273-305 | the matching terms of all fields; plain text for an invalid expression |
| `QueryLeaf.RangeBoundsAreOrdered` | lib/mu-parser.cc:309-327 | the bounds of a range, the lower one processed as a first and the upper one as a last value, end up in order; the order they are written in matters exactly when both ways make a range, and different ones |
| `QueryLeaf.SplitField` | lib/mu-parser.cc:338-344 | the text is the field, a colon and the value, or there is no field |
| `QuerySearch.SplitIsParted` | lib/mu-parser.cc:338-344 | a text is parted if and only if it has a colon whose first place is neither first nor last, and then there |
| `QuerySearch.LeafSearches` | lib/mu-parser.cc:244-371 | what the text of a word searches, spelled out: a value in some field, a term that matches, a range, or the whole text for an invalid field |
| `QuerySearch.LeafWarns` | lib/mu-parser.cc:273-371 | the warnings a word gets, exactly |
| `QuerySearch.LeafIsBarren` | lib/mu-parser.cc:273-305 | which words have an empty leaf, by their text |
| `Substrings.Find` | lib/mu-parser.cc:339-342 | the first place of a substring |
| `QueryParser.Parser.Data` | lib/mu-parser.cc:329-371 | takes one token, adds its warnings and gives its leaf |
| `QueryParser.Parser.Unit` | lib/mu-parser.cc:373-411 | takes the tokens and adds the warnings of the grammar's unit |
| `QueryParser.Parser.Factor2` | lib/mu-parser.cc:413-442 | an AND, said or not, and its right operand |
| `QueryParser.Parser.Factor1` | lib/mu-parser.cc:445-461 | a unit with what follows it |
| `QueryParser.Parser.Term2` | lib/mu-parser.cc:464-491 | an OR or XOR and its right operand |
| `QueryParser.Parser.Term1` | lib/mu-parser.cc:493-509 | a factor with what follows it |
| `QueryParser.Parse` | lib/mu-parser.cc:518-532 | a text to its tree and warnings |
| `Grammar.Unit` | lib/mu-parser.cc:373-411 | ends for every token list, takes a token if there is one, and gives a well-formed tree |
| `Grammar.Parse` | lib/mu-parser.cc:518-532 | no invalid node, one child below a NOT, two below a binary operator, for every token list |
| `Grammar.AlikeTerm` | lib/mu-parser.cc:493-509 | trees do not depend on the positions of tokens |
| `Syntax.ParsesAsWritten` | lib/mu-parser.cc:373-509 | a query that fits the grammar is parsed to its own tree, with no token left and no warning but those of its leaves |
| `Syntax.AcceptsTheGrammar` | lib/mu-parser.cc:373-509 | parsing gives no grammar warning and leaves no token if and only if the tokens spell a query of the grammar |
| `Syntax.StrayBracketHidesTheRest` | lib/mu-parser.cc:475-485 | what follows a closing bracket too many is dropped without a warning |
| `Syntax.AndIsImplicit` | lib/mu-parser.cc:425-436 | leaving out an AND changes nothing |
| `Syntax.PrintFits` | lib/mu-parser.cc:373-509 | a formula printed with brackets fits the grammar and has the formula's tree |
| `Syntax.OnlyNeededBrackets` | lib/mu-parser.cc:373-509 | a bracket is printed only where the query would not fit without it |
| `Syntax.TextRoundTrip` | lib/mu-parser.cc:518-532 | a formula printed as text, tokenized and parsed gives the tree of the formula, with the warnings about its words and no others |
| `QueryWarnings.WarningsAreTrue` | lib/mu-parser.cc:373-509 | for any text the parser stops at the end or at a closing bracket, and each warning tells what is wrong and where; two of the warnings are never given |
| `XapianQuery.TranslatesExactly` | lib/mu-xapian.cc:99-121 | the translation fails exactly on an invalid node, a NOT without its one child, or a leaf without data |
| `XapianQuery.WellFormedTranslates` | lib/mu-xapian.cc:30-56 | what the parser makes is always translated |
| `XapianQuery.QueryMeansTree` | lib/mu-xapian.cc:30-121 | the query finds exactly the documents of which the tree holds |
| `XapianQuery.PhraseOfWords` | lib/mu-xapian.cc:70-88 | a value of several words becomes a phrase of exactly these words |
| `XapianQuery.TermOrWildcard` | lib/mu-xapian.cc:58-80 | any other value becomes one term, or a wildcard for a star at its end |
| `XapianQuery.NoWordsNoQuery` | lib/mu-xapian.cc:70-88 | a phrase finds nothing at all if and only if it is empty |
| `QuerySearch.FindsExactly` | lib/mu-xapian.cc:99-121 | the documents of every query of the grammar: those it asks for, where an AND with a blank right operand is its left operand alone |
| `QuerySearch.FindsWhatItAsks` | lib/mu-xapian.cc:99-121 | so it finds exactly the documents it asks for, when no AND has a blank right operand |
| `QuerySearch.TextFindsWhatItAsks` | lib/mu-xapian.cc:99-121 | both from the text of a formula to the documents |
| `QuerySearch.BlankTree` | lib/mu-parser.cc:445-461 | a query has an empty tree if and only if all its words are expressions without matching terms, none of them negated |
| `QuerySearch.BlankRightIsDropped` | lib/mu-parser.cc:445-461 | an AND with a blank right operand, wherever it stands, is wrong on exactly the documents its left operand finds |
| `QuerySearch.BlankRightExample` | lib/mu-parser.cc:445-461 | an index and a query where it finds a document it should not |
| `SexpRoundTrip.StringIs` | lib/utils/mu-sexp.cc:84-106 | a string written with escapes is read back up to its closing quote |
| `SexpParser.SkipWhitespace` | lib/utils/mu-sexp.cc:43-54 | the first place behind the blanks |
| `SexpParser.ParseList` | lib/utils/mu-sexp.cc:58-74 | the items up to the closing bracket, or the first error among them |
| `SexpParser.ParseString` | lib/utils/mu-sexp.cc:77-107 | a quoted string; a backslash keeps its power until a quote or backslash uses it |
| `SexpParser.ParseInteger` | lib/utils/mu-sexp.cc:109-125 | an integer of 32 bits |
| `SexpParser.ParseSymbol` | lib/utils/mu-sexp.cc:127-138 | a symbol |
| `SexpParser.Parse` | lib/utils/mu-sexp.cc:141-166 | one s-expression with the blanks around it, or its error |
| `SexpParser.MakeParse` | lib/utils/mu-sexp.cc:168-178 | the one s-expression of a text, or an error where something trails |
| `SexpRoundTrip.ParsesText` | lib/utils/mu-sexp.cc:141-166 | an s-expression's text is parsed to it wherever it stands |
| `SexpRoundTrip.ParsedIsReadable` | lib/utils/mu-sexp.cc:141-166 | whatever the parser returns fits the grammar |
| `SexpRoundTrip.TextRoundTrip` | lib/utils/mu-sexp.cc:168-208 | an s-expression's text is parsed to it if and only if the grammar has a text for it |
| `SexpRoundTrip.ParsePrintParse` | lib/utils/mu-sexp.cc:168-208 | printing and parsing what was read from any accepted text give it back |
| `SexpRoundTrip.AtoiOfDecimals` | lib/utils/mu-sexp.hh:72-72 | a number printed in decimal is read as the same number |
| `SexpGrammar.AcceptsExactly` | lib/utils/mu-sexp.cc:43-178 | the accepted texts are exactly those of a grammar spelled out in characters, with any blanks, and each means what the grammar says |
| `SexpGrammar.SymbolsAreRead` | lib/utils/mu-sexp.cc:127-138 | the symbols that can be read are exactly those of letters, digits and hyphens that start with a letter or a colon |
| `SexpGrammar.TextIsPrinted` | lib/utils/mu-sexp.cc:181-208 | what is printed: one blank between items, a backslash before quotes and backslashes, and nothing else |
| `SexpErrors.ErrorsTell` | lib/utils/mu-sexp.cc:58-178 | what is said of a text that is not accepted, and where: a character that starts nothing, an end in a string or list, only blanks, or more behind a whole s-expression |
| `Decimal.NumberOfNumeral` | lib/utils/mu-sexp.cc:121-124 | digits denote the number they are a decimal numeral of |
| `Decimal.DigitsAreNumeral` | lib/utils/mu-sexp.hh:72-72 | a number is printed as its decimal numeral without zeros before it |
| `Commands.FirstFrom` | lib/utils/mu-command-parser.cc:106-113 | the first odd place where a key with a value stands |
| `Commands.FindValue` | lib/utils/mu-command-parser.cc:56-63 | validation finds the value that the getters find |
| `Commands.Invoke` | lib/utils/mu-command-parser.cc:30-95 | a call is accepted if and only if it is valid, and an error is given for its reason, for any order of the declared arguments |
| `Commands.FindParamNode` | lib/utils/mu-command-parser.cc:97-116 | the first value given for a key, or an error for a key without colon |
| `Commands.CheckedValue` | lib/utils/mu-command-parser.cc:74-81 | the value a getter reads was type-checked |
| `Commands.GettersAreTotal` | lib/utils/mu-command-parser.cc:128-180 | after validation a getter of the declared kind fails on no declared parameter, if and only if its name has a colon, and gives the first value or, for none and for nil, the alternative |
| `Commands.FirstValueCounts` | lib/utils/mu-command-parser.cc:106-113 | of a repeated key the first value counts |
| `Commands.GetStringVec` | lib/utils/mu-command-parser.cc:182-199 | the strings of a list, or the first element that is none |
| `Commands.IntegerComesOut` | lib/utils/mu-command-parser.cc:155-167 | an integer argument comes out as it was put in |
| `Commands.CallsAre` | lib/utils/mu-command-parser.cc:33-38 | a call is a function with names, each starting with a colon and followed by a value |
| `Commands.ValidCallsAre` | lib/utils/mu-command-parser.cc:40-95 | it is valid if and only if the function is known, no other names are given, and the first value of each name is of its kind or nil; one that is required is given |
| `AsyncQueues.AsyncQueue.Push` | lib/utils/mu-async-queue.hh:62-81 | the item goes to the end, unless the queue is full |
| `AsyncQueues.AsyncQueue.Pop` | lib/utils/mu-async-queue.hh:89-109 | the first item is taken, if there is one |
| `AsyncQueues.AsyncQueue.Clear` | lib/utils/mu-async-queue.hh:114-119 | nothing is left |
| `Indexers.MainKeeps` | lib/index/mu-indexer.cc:303-364 | every step of start and stop keeps the invariant |
| `Indexers.ScannerKeeps` | lib/index/mu-indexer.cc:267-296 | every step of the scanner thread keeps it |
| `Indexers.WorkerKeeps` | lib/index/mu-indexer.cc:183-218 | every step of a worker keeps it |
| `Indexers.RunsKeep` | lib/index/mu-indexer.cc:183-364 | it holds after every interleaving of steps |
| `Indexers.EveryPathIsSomewhere` | lib/index/mu-indexer.cc:177-214 | each pushed path is in exactly one place: the queue, at its turn, one worker's hands, or out |
| `Indexers.PathsOnlyMoveOn` | lib/index/mu-indexer.cc:192-218 | paths leave the queue in the order they were pushed, and what was added or dropped stays so |
| `Indexers.RunsObeyConf` | lib/index/mu-indexer.cc:267-324 | there is one worker or no more than allowed, and scanning and cleaning up are done only when asked for |
| `Indexers.AskedIsDone` | lib/index/mu-indexer.cc:267-296 | they are done when asked for: no scan that is still on puts off a new one |
| `Indexers.StepsAreCareful` | lib/index/mu-indexer.cc:183-324 | only a start or stop drops paths, a worker ends only on an empty queue that it saw while no scan was on, and the store is cleaned up and committed only with an empty queue |
| `Indexers.WorkersAreAdded` | lib/index/mu-indexer.cc:183-190 | after each path a worker looks at the queue, and starts another one just when it saw more paths than there are workers and more are allowed |
| `Indexers.StopLeavesNothing` | lib/index/mu-indexer.cc:303-324 | when the full stop returns, the state is idle, the queue is empty, no thread remains and no path is in anyone's hands |
| `Indexers.EarlyStopLeavesThreads` | lib/index/mu-indexer.cc:348-364 | a stop that finds nothing running returns with an idle state and an empty queue, and leaves the threads as they are |
| `Indexers.StopLeavesNoThreadsIff` | lib/index/mu-indexer.cc:303-364 | a stop that returned has left no thread if and only if it was a full one, or no start has got going since the workers were joined last |
| `Indexers.EarlyStopExample` | lib/index/mu-indexer.cc:348-364 | a run where a worker still holds a path after such a stop |
| `Indexers.OnlyStaleWorkersBreak` | lib/index/mu-indexer.cc:183-190 | while stop joins, the list of workers changes if and only if a worker acts on a queue size from before; without such a worker none comes up |
| `Indexers.StaleWorkerBreaksStop` | lib/index/mu-indexer.cc:183-190 | a run where this happens |
| `Scanners.Scanner.EnterDir` | lib/index/mu-indexer.cc:114-154 | whether a directory is entered; its stored stamp becomes the current one |
| `Scanners.Scanner.HandleFile` | lib/index/mu-indexer.cc:160-176 | a message is queued unless it is too big, or stored and up to date |
| `Scanners.Scanner.ProcessDentry` | lib/index/mu-scanner.cc:84-116 | the effect of one directory entry, with all that is below it |
| `Scanners.Scanner.ProcessDir` | lib/index/mu-scanner.cc:119-150 | the effect of the entries of a directory, in order |
| `Scanners.ItemsCovered` | lib/index/mu-scanner.cc:119-150 | what a directory queues is among its messages, and only stored ones are left out |
| `Scanners.MessagesInUnder` | lib/index/mu-scanner.cc:91-91 | paths of messages lie below their directory, and none occurs twice |
| `Scanners.ScanCovers` | lib/index/mu-scanner.cc:84-194 | without lazy checking each message of interest is stored or queued, none twice and nothing else, whatever the stored stamps are |
| `ScannedMessages.MessagesInAre` | lib/index/mu-scanner.cc:72-116 | the messages of interest, spelled out: files of allowed size in directories named cur or new, reached through directories without marks |
| `ScannedMessages.ScanFindsMessages` | lib/index/mu-scanner.cc:84-194 | over those paths: what is queued is one of them, none is queued twice, and each is stored or queued |
| `ScannedMessages.StampsAfterScan` | lib/index/mu-indexer.cc:120-157 | afterwards exactly the directories entered have their time as stamp, and all other stamps are as before |
| `Scanners.AskedItems` | lib/index/mu-indexer.cc:120-123 | the current stamp is that of the directory asked for last |
| `Scanners.ChangedIsQueuedIff` | lib/index/mu-indexer.cc:167-172 | a stored message newer than the stamp of its directory is queued again if and only if it is newer than the stamp of the directory asked for last before it |
| `Scanners.ChangedButNotQueued` | lib/index/mu-indexer.cc:167-172 | a directory below cur that hides a changed message |
| `Deciders.MatchDecider.MakeQueryMatch` | lib/mu-query-match-deciders.cc:48-62 | the flags of a document, and its id noted |
| `Deciders.MatchDecider.DecideLeader` | lib/mu-query-match-deciders.cc:137-145 | what the leader query remembers and keeps |
| `Deciders.MatchDecider.DecideRelated` | lib/mu-query-match-deciders.cc:175-189 | what the related query remembers and keeps |
| `Deciders.StepKeepsOwnIdsIff` | lib/mu-query-match-deciders.cc:137-189 | a call keeps the ids of matches that are no duplicates different if and only if it is no related call that keeps a new document with the id of one of them |
| `Deciders.RunKeepsOwnIdsIff` | lib/mu-query-match-deciders.cc:137-189 | over a whole run they are different if and only if there was no such call |
| `Deciders.KeptAreDistinct` | lib/mu-query-match-deciders.cc:137-189 | with duplicates skipped, documents kept in both phases have distinct ids, for any order of calls |
| `Deciders.FirstIsKept` | lib/mu-query-match-deciders.cc:71-81 | the first document of an id is kept, unless it cannot be read and that matters |
| `Deciders.RelatedForgetsDuplicates` | lib/mu-query-match-deciders.cc:183-187 | after two related calls with one id they are different if and only if duplicates are skipped |
| `Deciders.VerdictIs` | lib/mu-query-match-deciders.cc:71-81 | the verdict on a document is the same from both queries and in every call: it passes if it can be read and was the first called of its id, as far as these are asked for |
| `Deciders.LeaderIsMarked` | lib/mu-query-match-deciders.cc:137-145 | a match has the leader flag if and only if the leader query saw its document; any other has the related flag alone |
| `Deciders.KeptExactly` | lib/mu-query-match-deciders.cc:71-189 | kept are exactly the documents called that pass so, whatever the order of the calls |
| `Contacts.Cache.AddContact` | lib/mu-contacts.cc:215-246 | the table after one more contact |
| `Contacts.CacheTellsHistory` | lib/mu-contacts.cc:215-246 | an address has one entry if and only if it was added; it tells the first personal mark, the count of adds in 64 bits, and the spelling and date of the newest |
| `Contacts.RemoveCtrlCleans` | lib/utils/mu-utils.cc:153-169 | no control character is left, and cleaning once is enough |
| `Contacts.LessIsStrictWeak` | lib/mu-contacts.cc:81-97 | the rank is a strict weak order, and contacts of equal rank have one address |
| `Contacts.CleaningIs` | lib/utils/mu-utils.cc:153-169 | what is left of a text: every run of blanks and control characters is one blank, all else stays in order |
| `Contacts.RankIs` | lib/mu-contacts.cc:81-97 | personal contacts come first, then recently seen ones, then frequent ones, then by address |
| `Contacts.LineIs` | lib/mu-contacts.cc:196-210 | the line of a contact, part by part |
| `Contacts.LineReads` | lib/mu-contacts.cc:162-178 | a line is read exactly when it has six parts, and as the contact of these |
| `Contacts.InsertRanked` | lib/mu-contacts.cc:289-291 | a contact with a new address is put in its place |
| `Contacts.Cache.ForEach` | lib/mu-contacts.cc:280-295 | every contact is visited exactly once, in the order of rank |
| `Contacts.LineBack` | lib/mu-contacts.cc:160-178 | a contact's line is read back as the contact |
| `Contacts.SerializeTable` | lib/mu-contacts.cc:190-213 | the text of the cache is read back as the cache if and only if its texts hold no separator or line end and its numbers fit |
| `Contacts.DeserializeText` | lib/mu-contacts.cc:155-181 | the entries of a text, the first of an address staying |
| `MessageFlags.FlagsToStr` | lib/mu-flags.cc:122-135 | the characters of the flags in the order of the table |
| `MessageFlags.FlagsFromStr` | lib/mu-flags.cc:138-164 | the flags of a string, or none when an invalid one matters |
| `MessageFlags.CustomFromStr` | lib/mu-flags.cc:168-194 | what is no mail-file flag |
| `MessageFlags.FlagsRoundTrip` | lib/mu-flags.cc:122-194 | flags written before custom ones are read back, and so are the custom ones |
| `MessageFlags.FlagCharacters` | lib/mu-flags.cc:32-53 | the character of each flag, and the kinds of flags |
| `MessageFlags.FlagsOfString` | lib/mu-flags.cc:138-164 | a string is read as the flags of the given kinds whose characters it holds; as none at all exactly when it holds a character of no flag and that matters |
| `ByteStrings.LtIs` | lib/mu-query-threads.cc:487-490 | byte strings are compared at the first place where they part |
| `Ascii.LowerIs` | lib/mu-tokenizer.cc:40-45 | each capital letter has its small one and nothing else changes |
| `Maildirs.FindPathSeparator` | lib/mu-maildir.cc:441-452 | the last flag separator that is not the first character |
| `Maildirs.GetNewPath` | lib/mu-maildir.cc:454-499 | the path for new flags, a new maildir or a fresh name |
| `Maildirs.NameBack` | lib/mu-maildir.cc:441-452 | a written file name is taken apart into what it was made of if and only if no custom flags look like a separator |
| `Maildirs.FlagsComeBack` | lib/mu-maildir.cc:317-371 | the flags read back are the mail-file flags written if and only if no custom flag is the digit 2 or there are none |
| `Maildirs.NewIsNew` | lib/mu-maildir.cc:335-356 | a message in new shows that it is new, and nothing else |
| `Maildirs.RewriteKeepsName` | lib/mu-maildir.cc:454-499 | a message moved to cur lands in its maildir; its name is kept if and only if no custom flags look like a separator, and its flags are shown if and only if there are none or no custom flag is a 2 |
| `Maildirs.RewriteTwice` | lib/mu-maildir.cc:454-499 | rewriting twice is rewriting once with the last flags if and only if no custom flags look like a separator or no flag is written at all |
| `Maildirs.RewriteThroughNew` | lib/mu-maildir.cc:388-405 | through new this holds just when the base name holds no separator, and the message stays there or had no custom flags and the usual separator |
| `Maildirs.RewriteIs` | lib/mu-maildir.cc:388-499 | old and new paths as text, for a message in cur |
| `Maildirs.FromNewIs` | lib/mu-maildir.cc:388-499 | the same for a message in new, which gets a colon as its separator |
| `Maildirs.RenameIs` | lib/mu-maildir.cc:454-499 | under a fresh name a message keeps its separator and loses its custom flags |

## Left out

- ThreaderTable.CalculateThreads: display flags and subjects are not modelled; a match holds its path, level and date only.  A table that is no forest is not followed further.
- UpdatingTable.UpdateContainer: the flags for first, last, root, orphan, children and thread subject, which only choose how a message is displayed, are not modelled.
- UpdatingTable.UpdateContainers: the subjects passed along for those flags are not modelled.
- UpdatingTable.UpdateThreads: neither flags nor subjects are modelled.
- ThreadedQuery.RunThreaded: the limit on the number of documents, which cuts the list off at its end, is not modelled, and the second run is taken to find all results again.
- ThreadPaths.SegSize: the least k with 16^k >= n stands for the floating-point logarithm; a descending sort is modelled for up to 16^7 containers, as the shift of a 32-bit number needs.
- SortingTable.SortByKey: callers know only that the result is a sorted permutation, as with std::sort; the order of equal keys is left open.
- PruningTable.PruneEmptyContainers: the order of the hash table is any order that lists each entry once; the branch for test builds in the root sort is not modelled.
- TableBuilding.DetermineIdTable: reading headers is not modelled; a result is its id, references, date and duplicate mark, and a path is always there.
- Tokenizer.Tokenize: the cleaning of the text before it is tokenized, which removes control characters and outer blanks, is not modelled; the text is a cleaned one.
- QueryLeaf.DataLeaf: field tables, flattening, date and size parsing and regular expressions are functions given from outside (`Schema`); the only demand is that a search without a field has fields.
- XapianQuery.QueryMeansTree: Xapian is a set of documents and what simple queries find in it.
- Grammar.Parse: memory use and the depth of recursion are not modelled.
- SexpRoundTrip.TextRoundTrip: JSON output is not modelled; letters and digits are those of ASCII.
- Commands.Invoke: the handler itself is not modelled; it gets the parameters returned.
- Indexers.RunsKeep: liveness, timeouts and the progress counters are not modelled; the scanner may find any path at any time while it scans, and each read or write of a shared variable is atomic.  The indexer is a state machine on values, as its methods run in several threads at once; its queue there is the sequence that AsyncQueues keeps.
- Scanners.ScanCovers: failures of the file system and a stop in the middle are not modelled; the set of stored messages stays the same during a scan, as each path is looked at once.  With lazy checking the walk is modelled, but no coverage is claimed.
- Deciders.KeptAreDistinct: thread ids, sorting and Xapian's limit on matches are not modelled; the calls may come in any order.
- Contacts.Cache.AddContact: the returned copy, the time stamp and the test for personal addresses are not modelled.
- Maildirs.GetNewPath: the fresh base name, made of time, random numbers and the host name, is a parameter; a path in a bare cur or new, without a maildir above it, is outside the model.
- GMime parsing, crypto, the store's documents and terms, MIME parts, the command line, the server's output, bookmarks and the Guile bindings are not modelled: foreign libraries and formatting.
