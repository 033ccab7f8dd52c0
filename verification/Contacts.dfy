/** The cache of contacts: one for each e-mail address, with what was seen of it. */
module Contacts {
  import opened Wrappers
  import opened Ascii
  import opened Decimal
  import opened Substrings
  import ByteStrings

  datatype Contact = Contact(fullAddress: string, email: string, name: string, personal: bool, lastSeen: int, freq: nat)

  const TWO64 := 0x1_0000_0000_0000_0000

  predicate IsControl(c: char) { c < ' ' || c == '\U{7F}' }

  /** Runs of blanks and control characters become one blank; prev is the character
      written last, if any. */
  function Cleaned(s: string, prev: Option<char>): string {
    if s == "" then ""
    else if IsControl(s[0]) || s[0] == ' ' then
      (if prev == Some(' ') then "" else " ") + Cleaned(s[1..], Some(' '))
    else [s[0]] + Cleaned(s[1..], Some(s[0]))
  }

  function RemoveCtrl(s: string): string { Cleaned(s, None) }

  lemma CleanedStep(c: char, rest: string, prev: Option<char>)
    ensures var d := if IsControl(c) then ' ' else c;
            Cleaned([c] + rest, prev) == (if d == ' ' && prev == Some(' ') then "" else [d]) + Cleaned(rest, Some(d))
  {
    assert ([c] + rest)[1..] == rest;
  }

  lemma {:induction false} CleanedTwice(s: string, prev: Option<char>)
    ensures forall i :: 0 <= i < |Cleaned(s, prev)| ==> !IsControl(Cleaned(s, prev)[i])
    ensures Cleaned(Cleaned(s, prev), prev) == Cleaned(s, prev)
  {
    if s != "" {
      hide Cleaned;
      var c := if IsControl(s[0]) then ' ' else s[0];
      CleanedTwice(s[1..], Some(c));
      assert s == [s[0]] + s[1..];
      CleanedStep(s[0], s[1..], prev);
      CleanedStep(c, Cleaned(s[1..], Some(c)), prev);
      if c == ' ' && prev == Some(' ') { assert Cleaned(s, prev) == Cleaned(s[1..], Some(c)); }
    }
  }

  /** No control characters are left, and cleaning once is enough. */
  lemma RemoveCtrlCleans(s: string)
    ensures forall i :: 0 <= i < |RemoveCtrl(s)| ==> !IsControl(RemoveCtrl(s)[i])
    ensures RemoveCtrl(RemoveCtrl(s)) == RemoveCtrl(s)
  {
    CleanedTwice(s, None);
  }

  /** Blanks and control characters. */
  predicate IsFiller(c: char) { c <= '\U{20}' || c == '\U{7F}' }

  lemma {:induction false} FreshStart(s: string, prev: Option<char>)
    requires prev != Some(' ') || s == "" || !IsFiller(s[0])
    ensures Cleaned(s, prev) == Cleaned(s, None)
  {}

  lemma {:induction false} RunIsDropped(run: string, s: string)
    requires (forall c <- run :: IsFiller(c)) && (s == "" || !IsFiller(s[0]))
    ensures Cleaned(run + s, Some(' ')) == Cleaned(s, None)
    decreases run
  {
    if run == "" {
      assert run + s == s;
      FreshStart(s, Some(' '));
    } else {
      assert run[0] in run && run + s == [run[0]] + (run[1..] + s);
      RunIsDropped(run[1..], s);
      CleanedStep(run[0], run[1..] + s, Some(' '));
    }
  }

  /** What cleaning does: other characters stay, and each run of blanks and control
      characters becomes one blank. */
  lemma CleaningIs(c: char, run: string, s: string)
    ensures RemoveCtrl("") == ""
    ensures !IsFiller(c) ==> RemoveCtrl([c] + s) == [c] + RemoveCtrl(s)
    ensures run != "" && (forall d <- run :: IsFiller(d)) && (s == "" || !IsFiller(s[0])) ==>
              RemoveCtrl(run + s) == " " + RemoveCtrl(s)
  {
    if !IsFiller(c) {
      CleanedStep(c, s, None);
      FreshStart(s, Some(c));
    }
    if run != "" && (forall d <- run :: IsFiller(d)) && (s == "" || !IsFiller(s[0])) {
      assert run[0] in run && run + s == [run[0]] + (run[1..] + s);
      CleanedStep(run[0], run[1..] + s, None);
      RunIsDropped(run[1..], s);
    }
  }

  // Adding

  /** The contacts by address, in small letters. */
  type Table = map<string, Contact>

  function Fresh(ci: Contact): Contact { ci.(name := RemoveCtrl(ci.name), fullAddress := RemoveCtrl(ci.fullAddress)) }

  /** A known contact that is seen again; a later sight brings its spelling. */
  function Again(known: Contact, ci: Contact): Contact {
    var freq := (known.freq + 1) % TWO64;
    if ci.lastSeen > known.lastSeen then
      Contact(RemoveCtrl(ci.fullAddress), ci.email, RemoveCtrl(ci.name), known.personal, ci.lastSeen, freq)
    else known.(freq := freq)
  }

  function Add(t: Table, ci: Contact): Table {
    var key := Lower(ci.email);
    t[key := if key in t then Again(t[key], ci) else Fresh(ci)]
  }

  function AddAll(adds: seq<Contact>): Table {
    if adds == [] then map[] else Add(AddAll(adds[..|adds| - 1]), adds[|adds| - 1])
  }

  class Cache {
    var contacts: Table

    constructor (contacts: Table)
      ensures this.contacts == contacts
    {
      this.contacts := contacts;
    }

    method AddContact(ci: Contact)
      modifies this
      ensures contacts == Add(old(contacts), ci) && (Keyed(old(contacts)) ==> Keyed(contacts))
    {
      var key := Lower(ci.email);
      if key !in contacts {
        contacts := contacts[key := ci.(name := RemoveCtrl(ci.name), fullAddress := RemoveCtrl(ci.fullAddress))];
      } else {
        var existing := contacts[key];
        existing := existing.(freq := (existing.freq + 1) % TWO64);
        if ci.lastSeen > existing.lastSeen {
          existing := existing.(email := ci.email, name := RemoveCtrl(ci.name),
                                fullAddress := RemoveCtrl(ci.fullAddress), lastSeen := ci.lastSeen);
        }
        contacts := contacts[key := existing];
      }
    }

    /** The contacts in the order of their rank. */
    method ForEach(recently: int) returns (visited: seq<Contact>)
      requires Keyed(contacts)
      ensures Ranked(recently, visited) && |visited| == |contacts|
      ensures forall c :: c in visited <==> c in contacts.Values
    {
      visited := [];
      var todo := contacts.Keys;
      while todo != {}
        invariant todo <= contacts.Keys && Ranked(recently, visited) && |visited| == |contacts| - |todo|
        invariant forall c :: c in visited <==> exists k <- contacts.Keys - todo :: contacts[k] == c
      {
        var k :| k in todo;
        NotYetIn(recently, contacts, todo, k, visited);
        InsertRanked(recently, visited, contacts[k]);
        visited, todo := Insert(recently, visited, contacts[k]), todo - {k};
      }
    }
  }

  // History

  predicate Names(c: Contact, key: string) { Lower(c.email) == key }

  function Count(adds: seq<Contact>, key: string): nat {
    if adds == [] then 0 else Count(adds[..|adds| - 1], key) + if Names(adds[|adds| - 1], key) then 1 else 0
  }

  /** The frequency after n adds: the one it began with, and one for each later add,
      in 64 bits. */
  function Counted(freq: nat, n: nat): nat { if n <= 1 then freq else (freq + n - 1) % 0x1_0000_0000_0000_0000 }

  lemma CountedMore(freq: nat, n: nat)
    requires n > 0
    ensures (Counted(freq, n) + 1) % TWO64 == Counted(freq, n + 1)
  {}

  /** The i-th contact is the first with this key. */
  predicate IsFirst(adds: seq<Contact>, key: string, i: nat) {
    i < |adds| && Names(adds[i], key) && forall j :: 0 <= j < i ==> !Names(adds[j], key)
  }

  /** The i-th contact is the first of those with this key that were seen last. */
  predicate IsNewest(adds: seq<Contact>, key: string, i: nat) {
    && i < |adds| && Names(adds[i], key)
    && (forall j :: 0 <= j < |adds| && Names(adds[j], key) ==> adds[j].lastSeen <= adds[i].lastSeen)
    && (forall j :: 0 <= j < i && Names(adds[j], key) ==> adds[j].lastSeen < adds[i].lastSeen)
  }

  /** An entry tells of the contacts with its key: the first one gives the personal
      mark and the initial frequency, the newest one its spelling and date. */
  predicate Tells(c: Contact, adds: seq<Contact>, key: string, first: nat, newest: nat) {
    && IsFirst(adds, key, first) && IsNewest(adds, key, newest)
    && c.personal == adds[first].personal
    && c.freq == Counted(adds[first].freq, Count(adds, key))
    && c.email == adds[newest].email && c.lastSeen == adds[newest].lastSeen
    && c.name == RemoveCtrl(adds[newest].name) && c.fullAddress == RemoveCtrl(adds[newest].fullAddress)
  }

  lemma TellsStill(c: Contact, adds: seq<Contact>, ci: Contact, key: string, first: nat, newest: nat)
    requires Tells(c, adds, key, first, newest) && !Names(ci, key)
    ensures Tells(c, adds + [ci], key, first, newest)
  {
    CountMore(adds, ci, key);
  }

  lemma TellsMore(c: Contact, adds: seq<Contact>, ci: Contact, key: string, first: nat, newest: nat)
    requires Tells(c, adds, key, first, newest) && Names(ci, key) && Count(adds, key) > 0
    ensures Tells(Again(c, ci), adds + [ci], key, first, if ci.lastSeen > c.lastSeen then |adds| else newest)
  {
    hide RemoveCtrl, Lower, Counted, Count;
    CountMore(adds, ci, key);
    CountedMore(adds[first].freq, Count(adds, key));
  }

  lemma TellsFirst(adds: seq<Contact>, ci: Contact, key: string)
    requires Names(ci, key) && Count(adds, key) == 0 && forall c <- adds :: !Names(c, key)
    ensures Tells(Fresh(ci), adds + [ci], key, |adds|, |adds|)
  {
    hide RemoveCtrl, Lower, Count;
    CountMore(adds, ci, key);
    forall j | 0 <= j < |adds| ensures !Names((adds + [ci])[j], key) { assert adds[j] in adds; }
  }

  lemma CountMore(adds: seq<Contact>, ci: Contact, key: string)
    ensures Count(adds + [ci], key) == Count(adds, key) + if Names(ci, key) then 1 else 0
  {
    assert (adds + [ci])[..|adds|] == adds;
  }

  /** The cache is what its history says: an address has an entry if and only if it
      was added, and the entry tells of all its adds. */
  lemma {:induction false} CacheTellsHistory(adds: seq<Contact>, key: string) returns (first: nat, newest: nat)
    ensures key in AddAll(adds) <==> exists c <- adds :: Names(c, key)
    ensures key in AddAll(adds) ==> Tells(AddAll(adds)[key], adds, key, first, newest)
    ensures Count(adds, key) == 0 <==> key !in AddAll(adds)
  {
    hide Tells, Again, Fresh;
    first, newest := 0, 0;
    if adds != [] {
      var init, last := adds[..|adds| - 1], adds[|adds| - 1];
      first, newest := CacheTellsHistory(init, key);
      assert adds == init + [last];
      if Names(last, key) {
        assert last in adds;
        if key !in AddAll(init) {
          TellsFirst(init, last, key);
          first, newest := |init|, |init|;
        } else {
          TellsMore(AddAll(init)[key], init, last, key, first, newest);
          newest := if last.lastSeen > AddAll(init)[key].lastSeen then |init| else newest;
        }
      } else if key in AddAll(init) {
        TellsStill(AddAll(init)[key], init, last, key, first, newest);
      }
    }
  }

  /** Every entry stands under its own address. */
  predicate Keyed(t: Table) { forall k <- t :: Names(t[k], k) }

  // Rank

  predicate Less(recently: int, a: Contact, b: Contact) {
    if a.personal != b.personal then a.personal
    else if (a.lastSeen > recently) != (b.lastSeen > recently) then a.lastSeen > b.lastSeen
    else if a.freq != b.freq then a.freq > b.freq
    else ByteStrings.Lt(Lower(a.email), Lower(b.email))
  }

  /** Personal contacts come first; then those seen after the given time; then the
      more frequent ones; and then by address. */
  lemma RankIs(recently: int, a: Contact, b: Contact)
    ensures a.personal && !b.personal ==> Less(recently, a, b) && !Less(recently, b, a)
    ensures a.personal == b.personal ==>
              && (a.lastSeen > recently >= b.lastSeen ==> Less(recently, a, b) && !Less(recently, b, a))
              && ((a.lastSeen > recently <==> b.lastSeen > recently) ==>
                    && (a.freq > b.freq ==> Less(recently, a, b) && !Less(recently, b, a))
                    && (a.freq == b.freq ==>
                          (Less(recently, a, b) <==> ByteStrings.Lt(Lower(a.email), Lower(b.email)))))
  {}

  /** The rank is a strict weak order; contacts of equal rank have the same address. */
  lemma LessIsStrictWeak(recently: int, a: Contact, b: Contact, c: Contact)
    ensures !Less(recently, a, a)
    ensures Less(recently, a, b) && Less(recently, b, c) ==> Less(recently, a, c)
    ensures Less(recently, a, c) ==> Less(recently, a, b) || Less(recently, b, c)
    ensures !Less(recently, a, b) && !Less(recently, b, a) ==> Lower(a.email) == Lower(b.email)
  {
    var x, y, z := Lower(a.email), Lower(b.email), Lower(c.email);
    ByteStrings.Irreflexive(x);
    ByteStrings.Total(x, y);
    ByteStrings.Total(y, z);
    ByteStrings.Total(x, z);
    if ByteStrings.Lt(x, y) && ByteStrings.Lt(y, z) { ByteStrings.Transitive(x, y, z); }
    if ByteStrings.Lt(z, y) && ByteStrings.Lt(y, x) { ByteStrings.Transitive(z, y, x); }
  }

  predicate Ranked(recently: int, cs: seq<Contact>) {
    forall i, j :: 0 <= i < j < |cs| ==> Less(recently, cs[i], cs[j])
  }

  /** Putting a contact in its place, unless one of its rank is there. */
  function Insert(recently: int, cs: seq<Contact>, c: Contact): seq<Contact> {
    if cs == [] then [c]
    else if Less(recently, c, cs[0]) then [c] + cs
    else if Less(recently, cs[0], c) then [cs[0]] + Insert(recently, cs[1..], c)
    else cs
  }

  lemma {:induction false} InsertRanked(recently: int, cs: seq<Contact>, c: Contact)
    requires Ranked(recently, cs) && forall d <- cs :: Lower(d.email) != Lower(c.email)
    ensures var cs' := Insert(recently, cs, c);
            Ranked(recently, cs') && |cs'| == |cs| + 1 && forall d :: d in cs' <==> d in cs || d == c
  {
    if cs != [] {
      LessIsStrictWeak(recently, cs[0], c, c);
      if Less(recently, c, cs[0]) {
        forall i | 0 <= i < |cs| ensures Less(recently, c, cs[i]) { LessIsStrictWeak(recently, c, cs[0], cs[i]); }
      } else {
        InsertRanked(recently, cs[1..], c);
        var rest := Insert(recently, cs[1..], c);
        forall i | 0 <= i < |rest| ensures Less(recently, cs[0], rest[i]) { assert rest[i] in rest; }
        assert forall d :: d in cs <==> d == cs[0] || d in cs[1..];
      }
    }
  }

  lemma NotYetIn(recently: int, t: Table, todo: set<string>, k: string, visited: seq<Contact>)
    requires Keyed(t) && k in todo && todo <= t.Keys
    requires forall c :: c in visited <==> exists l <- t.Keys - todo :: t[l] == c
    ensures forall d <- visited :: Lower(d.email) != Lower(t[k].email)
  {}

  // As text

  const SEP := '\U{FF}'

  function Fields(c: Contact): seq<string> {
    [c.fullAddress, c.email, c.name, if c.personal then "1" else "0", Decimals(c.lastSeen), Decimals(Signed(c.freq))]
  }

  function Line(c: Contact): string { Joined(Fields(c), SEP) }

  /** A 64-bit number as a signed one, and back. */
  function Signed(n: nat): int { if n % TWO64 > MAX64 then n % TWO64 - TWO64 else n % TWO64 }

  function Unsigned(n: int): nat { n % TWO64 }

  /** The contact of a line; none when the line has not six parts. */
  function FromLine(line: string): Option<Contact> {
    var parts := Split(line, SEP);
    if |parts| != 6 then None
    else Some(Contact(parts[0], parts[1], parts[2], parts[3] != "" && parts[3][0] == '1',
                      Strtoll(parts[4]), Unsigned(Strtoll(parts[5]))))
  }

  function Serialize(cs: seq<Contact>): string {
    if cs == [] then "" else Line(cs[0]) + ['\n'] + Serialize(cs[1..])
  }

  /** The first line, and what follows it. */
  function CutLine(text: string): (r: (string, string))
    ensures text != "" ==> |r.1| < |text|
  {
    var end := Find(text, "\n");
    if end.None? then (text, "") else (text[..end.value], text[end.value + 1..])
  }

  /** t with the contact of a line, unless there is none or its address is known. */
  function Enter(t: Table, line: string): Table {
    var c := FromLine(line);
    if c.Some? && Lower(c.value.email) !in t then t[Lower(c.value.email) := c.value] else t
  }

  /** Lines to entries; the first with an address stays. */
  function Deserialize(text: string, t: Table): Table
    decreases |text|
  {
    if text == "" then t else Deserialize(CutLine(text).1, Enter(t, CutLine(text).0))
  }

  predicate CleanText(s: string) { SEP !in s && '\n' !in s }

  /** A contact whose texts hold no separator or line end, and whose numbers fit in
      64 bits. */
  predicate Storable(c: Contact) {
    CleanText(c.fullAddress) && CleanText(c.email) && CleanText(c.name) && MIN64 <= c.lastSeen <= MAX64 &&
      c.freq < TWO64
  }

  lemma DecimalsClean(n: int)
    ensures CleanText(Decimals(n))
  {
    var ds := Digits(if n < 0 then -n else n);
    forall c | c in Decimals(n) ensures c == '-' || IsDigit(c) { if c in ds { var i :| 0 <= i < |ds| && ds[i] == c; } }
  }

  lemma LineBack(c: Contact)
    requires Storable(c)
    ensures FromLine(Line(c)) == Some(c) && '\n' !in Line(c)
  {
    hide Decimals, Strtoll, Joined, Parts;
    DecimalsClean(c.lastSeen);
    DecimalsClean(Signed(c.freq));
    StrtollOfDecimals(c.lastSeen);
    StrtollOfDecimals(Signed(c.freq));
    PartsOfJoined(Fields(c), SEP);
    JoinedChars(Fields(c), SEP, '\n');
    LineNotEmpty(c);
  }

  /** Which lines are read, and as what: those of six parts, the numbers of the last
      two in 64 bits. */
  lemma LineReads(line: string)
    ensures exists parts: seq<string> :: Separated(line, parts)
    ensures forall parts: seq<string> :: Separated(line, parts) ==>
              FromLine(line) == if |parts| != 6 then None
                                else Some(Contact(parts[0], parts[1], parts[2], parts[3] != "" && parts[3][0] == '1',
                                                  Strtoll(parts[4]), Strtoll(parts[5]) % 0x1_0000_0000_0000_0000))
  {
    hide Strtoll, Joined, Parts;
    forall parts: seq<string> | Separated(line, parts) ensures line != "" ==> Split(line, SEP) == parts {
      if line != "" { PartsOfJoined(parts, SEP); }
    }
    JoinedParts(line, SEP);
    if line == "" {
      forall parts: seq<string> | Separated(line, parts) ensures |parts| == 1 { NoSeparator(parts); }
      assert Separated(line, Parts(line, SEP));
    } else {
      assert Separated(line, Split(line, SEP));
    }
  }

  /** The parts of a line, between its separators. */
  predicate Separated(line: string, parts: seq<string>) {
    parts != [] && (forall p <- parts :: '\U{FF}' !in p) && line == Joined(parts, '\U{FF}')
  }

  lemma NoSeparator(parts: seq<string>)
    ensures |parts| > 1 ==> Joined(parts, SEP) != ""
  {
    if |parts| > 1 { assert Joined(parts, SEP)[|parts[0]|] == SEP; }
  }

  /** The format of a line. */
  lemma LineIs(c: Contact)
    ensures Line(c) == c.fullAddress + "\U{FF}" + c.email + "\U{FF}" + c.name + "\U{FF}"
                       + (if c.personal then "1" else "0") + "\U{FF}"
                       + Decimals(c.lastSeen) + "\U{FF}" + Decimals(Signed(c.freq))
  {
    hide Decimals;
    var fs := Fields(c);
    JoinedMore(fs);
    JoinedMore(fs[1..]);
    JoinedMore(fs[2..]);
    JoinedMore(fs[3..]);
    JoinedMore(fs[4..]);
    assert fs[5..] == [fs[5]] && Joined(fs[5..], SEP) == fs[5];
    var e, d, c3, b := fs[4] + "\U{FF}" + fs[5], fs[3], fs[2], fs[1];
    assert Line(c) == fs[0] + ("\U{FF}" + (b + ("\U{FF}" + (c3 + ("\U{FF}" + (d + ("\U{FF}" + e)))))));
  }

  lemma JoinedMore(parts: seq<string>)
    requires |parts| > 1
    ensures Joined(parts, SEP) == parts[0] + ("\U{FF}" + Joined(parts[1..], SEP)) && parts[1..] == parts[1..]
    ensures forall k :: 0 <= k && k + 1 < |parts| ==> parts[1..][k] == parts[k + 1]
  {}

  lemma LineNotEmpty(c: Contact)
    ensures Line(c) != ""
  {}

  function Entries(cs: seq<Contact>, t: Table): Table
    decreases cs
  {
    if cs == [] then t else Entries(cs[1..], t[Lower(cs[0].email) := cs[0]])
  }

  /** Reading what was written gives the same entries back. */
  lemma {:induction false} SerializeRoundTrip(cs: seq<Contact>, t: Table)
    requires forall c <- cs :: Storable(c) && Lower(c.email) !in t
    requires forall i, j :: 0 <= i < j < |cs| ==> Lower(cs[i].email) != Lower(cs[j].email)
    ensures Deserialize(Serialize(cs), t) == Entries(cs, t)
    decreases cs
  {
    if cs != [] {
      var c, rest := cs[0], Serialize(cs[1..]);
      LineBack(c);
      FindChar(Serialize(cs), '\n');
      assert Serialize(cs)[|Line(c)|] == '\n' && forall i :: 0 <= i < |Line(c)| ==> Serialize(cs)[i] == Line(c)[i];
      assert Serialize(cs)[..|Line(c)|] == Line(c) && Serialize(cs)[|Line(c)| + 1..] == rest;
      SerializeRoundTrip(cs[1..], t[Lower(c.email) := c]);
    }
  }

  /** What a line gives can be stored. */
  lemma FromLineStorable(line: string)
    requires '\n' !in line && FromLine(line).Some?
    ensures Storable(FromLine(line).value)
  {
    hide Strtoll, Parts;
    PartsChars(line, SEP, '\n');
    JoinedParts(line, SEP);
    var parts := Split(line, SEP);
    assert parts[0] in parts && parts[1] in parts && parts[2] in parts;
  }

  lemma LineIsOne(text: string)
    ensures '\n' !in CutLine(text).0
  {
    FindChar(text, '\n');
  }

  lemma EnterStorable(t: Table, line: string)
    requires '\n' !in line && forall k <- t :: Storable(t[k])
    ensures forall k <- Enter(t, line) :: Storable(Enter(t, line)[k])
  {
    hide FromLine, Storable;
    if FromLine(line).Some? { FromLineStorable(line); }
  }

  lemma {:induction false} DeserializeStorable(text: string, t: Table)
    requires forall k <- t :: Storable(t[k])
    ensures forall k <- Deserialize(text, t) :: Storable(Deserialize(text, t)[k])
    decreases |text|
  {
    hide CutLine, Enter, Storable;
    if text != "" {
      LineIsOne(text);
      EnterStorable(t, CutLine(text).0);
      DeserializeStorable(CutLine(text).1, Enter(t, CutLine(text).0));
    }
  }

  lemma {:induction false} SerializeMore(cs: seq<Contact>, c: Contact, t: Table)
    ensures Serialize(cs + [c]) == Serialize(cs) + Line(c) + ['\n']
    ensures Entries(cs + [c], t) == Entries(cs, t)[Lower(c.email) := c]
    decreases cs
  {
    hide Line, Lower;
    if cs == [] {
      assert cs + [c] == [c] && [c][1..] == [];
    } else {
      assert (cs + [c])[1..] == cs[1..] + [c];
      SerializeMore(cs[1..], c, t[Lower(cs[0].email) := cs[0]]);
    }
  }

  /** The entries as text, in any order.  Reading the text gives them back if and only
      if all of them can be stored. */
  method SerializeTable(contacts: Table) returns (s: string)
    requires Keyed(contacts)
    ensures Deserialize(s, map[]) == contacts <==> forall k <- contacts :: Storable(contacts[k])
  {
    hide Line, Deserialize, Storable;
    s := "";
    ghost var order := [];
    var todo := contacts.Keys;
    while todo != {}
      invariant todo <= contacts.Keys && s == Serialize(order)
      invariant Entries(order, map[]) == map k | k in contacts.Keys - todo :: contacts[k]
      invariant forall i :: 0 <= i < |order| ==> Given(contacts, todo, order[i])
      invariant forall i, j :: 0 <= i < j < |order| ==> Lower(order[i].email) != Lower(order[j].email)
    {
      var k :| k in todo;
      SerializeMore(order, contacts[k], map[]);
      s, todo := s + Line(contacts[k]) + ['\n'], todo - {k};
      order := order + [contacts[k]];
    }
    if forall k <- contacts :: Storable(contacts[k]) { SerializeRoundTrip(order, map[]); }
    DeserializeStorable(s, map[]);
  }

  /** c is one of the entries that are done. */
  predicate Given(contacts: Table, todo: set<string>, c: Contact) {
    Lower(c.email) in contacts && Lower(c.email) !in todo && contacts[Lower(c.email)] == c
  }

  method DeserializeText(serialized: string) returns (contacts: Table)
    ensures contacts == Deserialize(serialized, map[]) && Keyed(contacts)
  {
    contacts := map[];
    var rest := serialized;
    while rest != ""
      invariant Deserialize(rest, contacts) == Deserialize(serialized, map[]) && Keyed(contacts)
      decreases |rest|
    {
      var end := Find(rest, "\n");
      var line := if end.None? then rest else rest[..end.value];
      rest := if end.None? then "" else rest[end.value + 1..];
      var c := FromLine(line);
      if c.Some? && Lower(c.value.email) !in contacts { contacts := contacts[Lower(c.value.email) := c.value]; }
    }
  }
}
