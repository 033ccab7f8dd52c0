/** Message flags and their characters. */
module MessageFlags {
  import opened Wrappers

  datatype Flag = Draft | Flagged | Passed | Replied | Seen | Trashed | New | Signed | Encrypted | HasAttach | List
    | Unread

  datatype FlagType = MailFile | MailDir | Content | Pseudo

  datatype FlagInfo = FlagInfo(flag: Flag, kar: char, kind: FlagType)

  const FLAG_INFO: seq<FlagInfo> := [
    FlagInfo(Draft, 'D', MailFile), FlagInfo(Flagged, 'F', MailFile), FlagInfo(Passed, 'P', MailFile),
    FlagInfo(Replied, 'R', MailFile), FlagInfo(Seen, 'S', MailFile), FlagInfo(Trashed, 'T', MailFile),
    FlagInfo(New, 'N', MailDir), FlagInfo(Signed, 'z', Content), FlagInfo(Encrypted, 'x', Content),
    FlagInfo(HasAttach, 'a', Content), FlagInfo(List, 'l', Content), FlagInfo(Unread, 'u', Pseudo)]

  /** A mask of flags. */
  type Flags = set<Flag>

  function FromCharAt(kar: char, u: nat): (r: Option<FlagInfo>)
    ensures r.Some? ==> r.value.kar == kar && exists n :: u <= n < |FLAG_INFO| && FLAG_INFO[n] == r.value
    decreases |FLAG_INFO| - u
  {
    if u >= |FLAG_INFO| then None else if FLAG_INFO[u].kar == kar then Some(FLAG_INFO[u]) else FromCharAt(kar, u + 1)
  }

  /** The table's line for a character. */
  function FromChar(kar: char): Option<FlagInfo> { FromCharAt(kar, 0) }

  predicate IsMailFileChar(c: char) { c == 'D' || c == 'F' || c == 'P' || c == 'R' || c == 'S' || c == 'T' }

  function CharsOf(infos: seq<FlagInfo>, flags: Flags, types: set<FlagType>): string {
    if infos == [] then ""
    else
      var last := infos[|infos| - 1];
      CharsOf(infos[..|infos| - 1], flags, types) + if last.flag in flags && last.kind in types then [last.kar] else ""
  }

  /** The characters of the flags, in the order of the table. */
  function ToStr(flags: Flags, types: set<FlagType>): string { CharsOf(FLAG_INFO, flags, types) }

  /** The flags of the given types in a string; none at all when a character is no
      flag and that matters. */
  function FromStr(str: string, types: set<FlagType>, ignoreInvalid: bool): Option<Flags> {
    if str == "" then Some({})
    else
      var init, f := FromStr(str[..|str| - 1], types, ignoreInvalid), FromChar(str[|str| - 1]);
      if init.None? then None
      else if f.None? then (if ignoreInvalid then init else None)
      else if f.value.kind in types then Some(init.value + {f.value.flag})
      else init
  }

  /** What is no mail-file flag. */
  function Custom(str: string): string {
    if str == "" then ""
    else
      var last := str[|str| - 1];
      Custom(str[..|str| - 1]) + if FromChar(last).Some? && FromChar(last).value.kind.MailFile? then "" else [last]
  }

  method FlagsToStr(flags: Flags, types: set<FlagType>) returns (str: string)
    ensures str == ToStr(flags, types)
  {
    str := "";
    for u := 0 to |FLAG_INFO|
      invariant str == CharsOf(FLAG_INFO[..u], flags, types)
    {
      assert FLAG_INFO[..u + 1][..u] == FLAG_INFO[..u];
      if FLAG_INFO[u].flag in flags && FLAG_INFO[u].kind in types { str := str + [FLAG_INFO[u].kar]; }
    }
    assert FLAG_INFO[..|FLAG_INFO|] == FLAG_INFO;
  }

  method FlagsFromStr(str: string, types: set<FlagType>, ignoreInvalid: bool) returns (flags: Option<Flags>)
    ensures flags == FromStr(str, types, ignoreInvalid)
  {
    hide FromChar;
    var flag: Flags := {};
    for cur := 0 to |str|
      invariant FromStr(str[..cur], types, ignoreInvalid) == Some(flag)
    {
      assert str[..cur + 1][..cur] == str[..cur];
      var f := FromChar(str[cur]);
      if f.None? {
        if ignoreInvalid { continue; }
        NoneFrom(str, cur + 1, types);
        return None;
      }
      if f.value.kind in types { flag := flag + {f.value.flag}; }
    }
    assert str[..|str|] == str;
    flags := Some(flag);
  }

  lemma {:induction false} NoneFrom(str: string, cur: nat, types: set<FlagType>)
    requires cur <= |str| && FromStr(str[..cur], types, false).None?
    ensures FromStr(str, types, false).None?
    decreases |str| - cur
  {
    if cur < |str| {
      assert str[..cur + 1][..cur] == str[..cur];
      NoneFrom(str, cur + 1, types);
    } else {
      assert str[..cur] == str;
    }
  }

  method CustomFromStr(str: string) returns (custom: string)
    ensures custom == Custom(str)
  {
    hide FromChar;
    custom := "";
    for cur := 0 to |str|
      invariant custom == Custom(str[..cur])
    {
      assert str[..cur + 1][..cur] == str[..cur];
      var flag := FromChar(str[cur]);
      if flag.Some? && flag.value.kind.MailFile? { continue; }
      custom := custom + [str[cur]];
    }
    assert str[..|str|] == str;
  }

  // Facts about the table

  lemma {:induction false} Finds(u: nat, n: nat)
    requires u <= n < |FLAG_INFO| && forall j :: u <= j < n ==> FLAG_INFO[j].kar != FLAG_INFO[n].kar
    ensures FromCharAt(FLAG_INFO[n].kar, u) == Some(FLAG_INFO[n])
    decreases n - u
  {
    if u < n { Finds(u + 1, n); }
  }

  /** No two flags have the same character. */
  lemma CharOfFlag(n: nat)
    requires n < |FLAG_INFO|
    ensures FromChar(FLAG_INFO[n].kar) == Some(FLAG_INFO[n])
  {
    Finds(0, n);
  }

  lemma MailFileChars(c: char)
    ensures FromChar(c).Some? && FromChar(c).value.kind.MailFile? <==> IsMailFileChar(c)
  {
    if IsMailFileChar(c) {
      var n := if c == 'D' then 0 else if c == 'F' then 1 else if c == 'P' then 2 else if c == 'R' then 3
        else if c == 'S' then 4 else 5;
      CharOfFlag(n);
    }
  }

  // Reading back what was written

  const MAIL_FILE: set<FlagType> := {MailFile}

  /** The mail-file flags of a mask. */
  function MailFileFlags(flags: Flags): Flags { flags * {Draft, Flagged, Passed, Replied, Seen, Trashed} }

  /** No mail-file flag, so left alone by everything here. */
  predicate IsCustom(str: string) { forall i :: 0 <= i < |str| ==> !IsMailFileChar(str[i]) }

  lemma {:induction false} CustomIsCustom(str: string)
    ensures IsCustom(Custom(str)) && forall c <- Custom(str) :: c in str
    ensures IsCustom(str) ==> Custom(str) == str
  {
    hide FromChar;
    if str != "" {
      CustomIsCustom(str[..|str| - 1]);
      MailFileChars(str[|str| - 1]);
      if IsCustom(str) { assert IsCustom(str[..|str| - 1]); }
    }
  }

  lemma {:induction false} CustomDrops(a: string, b: string)
    requires forall i :: 0 <= i < |a| ==> IsMailFileChar(a[i])
    ensures Custom(a + b) == Custom(b)
    decreases b, a
  {
    hide FromChar;
    if b != "" {
      assert (a + b)[..|a + b| - 1] == a + b[..|b| - 1];
      CustomDrops(a, b[..|b| - 1]);
    } else if a != "" {
      assert a + b == a && a[..|a| - 1] + "" == a[..|a| - 1];
      CustomDrops(a[..|a| - 1], "");
      MailFileChars(a[|a| - 1]);
    }
  }

  lemma {:induction false} FromStrCustom(a: string, b: string)
    requires IsCustom(b)
    ensures FromStr(a + b, MAIL_FILE, true) == FromStr(a, MAIL_FILE, true)
    decreases b
  {
    hide FromChar;
    if b == "" {
      assert a + b == a;
    } else {
      assert (a + b)[..|a + b| - 1] == a + b[..|b| - 1];
      FromStrCustom(a, b[..|b| - 1]);
      MailFileChars(b[|b| - 1]);
    }
  }

  function FlagsOf(infos: seq<FlagInfo>, flags: Flags): Flags {
    if infos == [] then {}
    else
      var last := infos[|infos| - 1];
      FlagsOf(infos[..|infos| - 1], flags) + if last.flag in flags && last.kind.MailFile? then {last.flag} else {}
  }

  lemma FromStrMore(str: string, info: FlagInfo)
    requires FromChar(info.kar) == Some(info)
    ensures var before, after := FromStr(str, MAIL_FILE, true), FromStr(str + [info.kar], MAIL_FILE, true);
            && (before.Some? ==> after == Some(before.value + if info.kind.MailFile? then {info.flag} else {}))
            && (OnlyMailFile(str) && info.kind.MailFile? ==> OnlyMailFile(str + [info.kar]))
  {
    hide FromChar;
    MailFileChars(info.kar);
    assert (str + [info.kar])[..|str|] == str;
    if FromStr(str, MAIL_FILE, true).Some? {
      assert FromStr(str, MAIL_FILE, true).value + {} == FromStr(str, MAIL_FILE, true).value;
    }
  }

  lemma {:induction false} FromStrChars(infos: seq<FlagInfo>, flags: Flags)
    requires forall info <- infos :: FromChar(info.kar) == Some(info)
    ensures var str := CharsOf(infos, flags, MAIL_FILE);
            FromStr(str, MAIL_FILE, true) == Some(FlagsOf(infos, flags)) && OnlyMailFile(str)
  {
    hide FromChar, FromStr, OnlyMailFile;
    if infos == [] {
      NothingWritten();
    } else {
      var init, last := infos[..|infos| - 1], infos[|infos| - 1];
      FromStrChars(init, flags);
      FromStrMore(CharsOf(init, flags, MAIL_FILE), last);
      assert CharsOf(init, flags, MAIL_FILE) + "" == CharsOf(init, flags, MAIL_FILE);
      assert FlagsOf(init, flags) + {} == FlagsOf(init, flags);
    }
  }

  predicate OnlyMailFile(str: string) { forall i :: 0 <= i < |str| ==> IsMailFileChar(str[i]) }

  lemma NothingWritten()
    ensures FromStr("", MAIL_FILE, true) == Some({}) && OnlyMailFile("")
  {}

  /** Flags written and read again are the mail-file flags. */
  lemma FlagsRoundTrip(flags: Flags, custom: string)
    requires IsCustom(custom)
    ensures var str := ToStr(flags, MAIL_FILE);
            && FromStr(str + custom, MAIL_FILE, true) == Some(MailFileFlags(flags))
            && Custom(str + custom) == custom
            && forall i :: 0 <= i < |str| ==> IsMailFileChar(str[i])
  {
    hide FromStr, Custom, CharsOf, FromChar, FlagsOf, MailFileFlags;
    forall info | info in FLAG_INFO ensures FromChar(info.kar) == Some(info) {
      var n :| 0 <= n < |FLAG_INFO| && FLAG_INFO[n] == info;
      CharOfFlag(n);
    }
    FromStrChars(FLAG_INFO, flags);
    FromStrCustom(ToStr(flags, MAIL_FILE), custom);
    CustomDrops(ToStr(flags, MAIL_FILE), custom);
    CustomIsCustom(custom);
    AllMailFile(flags);
  }

  lemma {:induction false} InFlags(infos: seq<FlagInfo>, flags: Flags, f: Flag)
    ensures f in FlagsOf(infos, flags) <==>
            f in flags && exists i :: 0 <= i < |infos| && infos[i].flag == f && infos[i].kind.MailFile?
  {
    if infos != [] {
      var init := infos[..|infos| - 1];
      InFlags(init, flags, f);
      if i :| 0 <= i < |init| && init[i].flag == f && init[i].kind.MailFile? { assert infos[i] == init[i]; }
    }
  }

  lemma AllMailFile(flags: Flags)
    ensures FlagsOf(FLAG_INFO, flags) == MailFileFlags(flags)
  {
    hide FlagsOf;
    forall f ensures f in FlagsOf(FLAG_INFO, flags) <==> f in MailFileFlags(flags) {
      InFlags(FLAG_INFO, flags, f);
      var i := match f case Draft => 0 case Flagged => 1 case Passed => 2 case Replied => 3 case Seen => 4 case _ => 5;
      assert f in {Draft, Flagged, Passed, Replied, Seen, Trashed} ==> FLAG_INFO[i].flag == f;
    }
  }

  lemma {:induction false} NothingToWrite(infos: seq<FlagInfo>, flags: Flags)
    ensures CharsOf(infos, flags, MAIL_FILE) == "" <==> FlagsOf(infos, flags) == {}
  {
    if infos != [] { NothingToWrite(infos[..|infos| - 1], flags); }
  }

  /** Nothing is written just for a mask without mail-file flags. */
  lemma WrittenIsEmpty(flags: Flags)
    ensures ToStr(flags, MAIL_FILE) == "" <==> MailFileFlags(flags) == {}
  {
    hide CharsOf, FlagsOf, MailFileFlags;
    NothingToWrite(FLAG_INFO, flags);
    AllMailFile(flags);
  }

  function Mark(flags: Flags, flag: Flag, asked: bool, c: string): string { if asked && flag in flags then c else "" }

  lemma CharsMore(flags: Flags, types: set<FlagType>, n: nat)
    requires n < |FLAG_INFO|
    ensures CharsOf(FLAG_INFO[..n + 1], flags, types) ==
            CharsOf(FLAG_INFO[..n], flags, types)
            + Mark(flags, FLAG_INFO[n].flag, FLAG_INFO[n].kind in types, [FLAG_INFO[n].kar])
  {
    assert FLAG_INFO[..n + 1][..n] == FLAG_INFO[..n];
  }

  /** The characters of the flags, in their order. */
  lemma FlagCharacters(flags: Flags, types: set<FlagType>)
    ensures var file, content := MailFile in types, Content in types;
            ToStr(flags, types) ==
            "" + Mark(flags, Draft, file, "D") + Mark(flags, Flagged, file, "F") + Mark(flags, Passed, file, "P")
            + Mark(flags, Replied, file, "R") + Mark(flags, Seen, file, "S") + Mark(flags, Trashed, file, "T")
            + Mark(flags, New, MailDir in types, "N")
            + Mark(flags, Signed, content, "z") + Mark(flags, Encrypted, content, "x")
            + Mark(flags, HasAttach, content, "a") + Mark(flags, List, content, "l")
            + Mark(flags, Unread, Pseudo in types, "u")
  {
    hide Mark, CharsOf;
    NoChars(flags, types);
    CharsMore(flags, types, 0);
    CharsMore(flags, types, 1);
    CharsMore(flags, types, 2);
    CharsMore(flags, types, 3);
    CharsMore(flags, types, 4);
    CharsMore(flags, types, 5);
    CharsMore(flags, types, 6);
    CharsMore(flags, types, 7);
    CharsMore(flags, types, 8);
    CharsMore(flags, types, 9);
    CharsMore(flags, types, 10);
    CharsMore(flags, types, 11);
    assert FLAG_INFO[..12] == FLAG_INFO;
  }

  lemma NoChars(flags: Flags, types: set<FlagType>)
    ensures CharsOf(FLAG_INFO[..0], flags, types) == ""
  {}

  /** c is the character of a flag of a kind. */
  predicate Marks(c: char, f: Flag, kind: FlagType) {
    match f
    case Draft => c == 'D' && kind.MailFile?
    case Flagged => c == 'F' && kind.MailFile?
    case Passed => c == 'P' && kind.MailFile?
    case Replied => c == 'R' && kind.MailFile?
    case Seen => c == 'S' && kind.MailFile?
    case Trashed => c == 'T' && kind.MailFile?
    case New => c == 'N' && kind.MailDir?
    case Signed => c == 'z' && kind.Content?
    case Encrypted => c == 'x' && kind.Content?
    case HasAttach => c == 'a' && kind.Content?
    case List => c == 'l' && kind.Content?
    case Unread => c == 'u' && kind.Pseudo?
  }

  /** The place of a flag in the table. */
  function Place(f: Flag): (n: nat)
    ensures n < |FLAG_INFO|
  {
    match f
    case Draft => 0 case Flagged => 1 case Passed => 2 case Replied => 3 case Seen => 4 case Trashed => 5
    case New => 6 case Signed => 7 case Encrypted => 8 case HasAttach => 9 case List => 10 case Unread => 11
  }

  lemma CharIs(c: char, f: Flag, kind: FlagType)
    ensures Marks(c, f, kind) <==> FromChar(c) == Some(FlagInfo(f, c, kind))
  {
    CharOfFlag(Place(f));
    PlaceIs(f);
    if FromChar(c) == Some(FlagInfo(f, c, kind)) {
      var n :| 0 <= n < |FLAG_INFO| && FLAG_INFO[n] == FlagInfo(f, c, kind);
      FlagAt(n);
    }
  }

  lemma PlaceIs(f: Flag)
    ensures Marks(FLAG_INFO[Place(f)].kar, f, FLAG_INFO[Place(f)].kind) && FLAG_INFO[Place(f)].flag == f
  {}

  lemma FlagAt(n: nat)
    requires n < |FLAG_INFO|
    ensures Place(FLAG_INFO[n].flag) == n
  {}

  /** No flag has this character. */
  ghost predicate MarksNothing(c: char) { forall f, k :: !Marks(c, f, k) }

  lemma InvalidIs(c: char)
    ensures MarksNothing(c) <==> FromChar(c).None?
  {
    hide FromCharAt, Marks;
    if FromChar(c).Some? {
      var i := FromChar(c).value;
      KarOf(c);
      CharIs(c, i.flag, i.kind);
    }
    forall f, k | Marks(c, f, k) ensures FromChar(c).Some? { CharIs(c, f, k); }
  }

  lemma KarOf(c: char)
    ensures FromChar(c).Some? ==> FromChar(c).value.kar == c
  {}

  /** What a string of flags is read as: nothing when it holds a character of no flag
      and that matters; or else the flags of the given kinds whose characters it holds. */
  lemma {:induction false} FlagsOfString(str: string, types: set<FlagType>, ignoreInvalid: bool)
    ensures FromStr(str, types, ignoreInvalid).None? <==> !ignoreInvalid && exists c <- str :: MarksNothing(c)
    ensures FromStr(str, types, ignoreInvalid).Some? ==>
              forall f :: f in FromStr(str, types, ignoreInvalid).value <==>
                exists c <- str, k <- types :: Marks(c, f, k)
  {
    hide FromChar, Marks, MarksNothing;
    if str != "" {
      var init, last := str[..|str| - 1], str[|str| - 1];
      FlagsOfString(init, types, ignoreInvalid);
      InvalidIs(last);
      assert forall c :: c in str <==> c in init || c == last;
      forall f, k ensures Marks(last, f, k) <==> FromChar(last) == Some(FlagInfo(f, last, k)) { CharIs(last, f, k); }
      KarOf(last);
    }
  }
}
