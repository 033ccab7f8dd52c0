/** Paths of messages in a maildir, and how their flags rewrite them. */
module Maildirs {
  import opened Wrappers
  import opened Substrings
  import opened MessageFlags

  // Directories and base names, as GLib has them

  /** The last place of a character; none when it is not there. */
  function LastOf(s: string, c: char): (r: Option<nat>)
    ensures r.Some? ==> r.value < |s| && s[r.value] == c && c !in s[r.value + 1..]
    ensures r.None? ==> c !in s
  {
    if s == "" then None
    else if s[|s| - 1] == c then Some(|s| - 1)
    else LastOf(s[..|s| - 1], c)
  }

  /** Without the slashes at the end, but for one that stands first. */
  function DropSlashes(s: string): string {
    if |s| > 1 && s[|s| - 1] == '/' then DropSlashes(s[..|s| - 1]) else s
  }

  function DirName(path: string): string {
    match LastOf(path, '/')
    case None => "."
    case Some(i) => DropSlashes(path[..i + 1])
  }

  function BaseName(path: string): string {
    if path == "" then "."
    else
      var s := DropSlashes(path);
      if s == "/" then s
      else match LastOf(s, '/') case None => s case Some(i) => s[i + 1..]
  }

  // Flags in paths

  predicate IsSeparator(c: char) { c == ':' || c == '!' || c == ';' }

  /** The flags a path shows. */
  function FlagsFromPath(path: string): Option<Flags> {
    if Find(path, "/new/").Some? && BaseName(DirName(path)) == "new" then Some({New})
    else
      match LastOf(path, '2')
      case None => Some({})
      case Some(i) =>
        if i == 0 || !IsSeparator(path[i - 1]) || i + 1 == |path| || path[i + 1] != ',' then Some({})
        else FromStr(path[i + 2..], MAIL_FILE, true)
  }

  /** The directory of a path is more than a bare cur or new. */
  predicate HasMaildir(path: string) { DirName(path) != "cur" && DirName(path) != "new" }

  /** The maildir of a message; none when it is not in a cur or new directory. */
  function MaildirFromPath(path: string): (r: Option<string>)
    requires HasMaildir(path)
    ensures r.Some? ==> |DirName(path)| == |r.value| + 4
  {
    var mdir := DirName(path);
    if |mdir| < 3 then None
    else
      var end := mdir[|mdir| - 3..];
      if end == "cur" || end == "new" then assert |mdir| == 3 ==> end == mdir; Some(mdir[..|mdir| - 4]) else None
  }

  predicate SeparatorAt(s: string, i: nat) { i + 2 < |s| && IsSeparator(s[i]) && s[i + 1] == '2' && s[i + 2] == ',' }

  /** The last separator before position end that is not the first character. */
  function SeparatorBefore(s: string, end: nat): (r: Option<nat>)
    ensures r.Some? ==> 0 < r.value < end && SeparatorAt(s, r.value)
    ensures forall i :: 0 < i < end && SeparatorAt(s, i) ==> r.Some? && i <= r.value
  {
    if end <= 1 then None else if SeparatorAt(s, end - 1) then Some(end - 1) else SeparatorBefore(s, end - 1)
  }

  function PathSeparator(s: string): Option<nat> { SeparatorBefore(s, |s|) }

  method FindPathSeparator(s: string) returns (r: Option<nat>)
    ensures r == PathSeparator(s)
  {
    var cur: nat := |s|;
    while cur > 1
      invariant SeparatorBefore(s, cur) == PathSeparator(s)
    {
      cur := cur - 1;
      if SeparatorAt(s, cur) { return Some(cur); }
    }
    r := None;
  }

  /** A file name taken apart: its base, the separator, and the custom flags. */
  datatype Name = Name(base: string, sep: char, custom: string)

  function NameOf(mfile: string): Name {
    match PathSeparator(mfile)
    case None => Name(mfile, ':', "")
    case Some(i) => Name(mfile[..i], mfile[i], Custom(mfile[i + 3..]))
  }

  /** What stands behind the base of a message in cur. */
  function InfoFor(n: Name, flags: Flags): string { [n.sep] + "2," + (ToStr(flags, MAIL_FILE) + n.custom) }

  /** The file name of a message in cur. */
  function FileFor(n: Name, flags: Flags): string { n.base + InfoFor(n, flags) }

  /** The path of a message with these flags: in new, or in cur with its info. */
  function PathFor(mdir: string, n: Name, flags: Flags): string {
    if New in flags then mdir + "/new/" + n.base else mdir + "/cur/" + FileFor(n, flags)
  }

  /** The name for a message: its own, or a fresh base with the separator of its path. */
  function NewName(oldpath: string, renamed: Option<string>): Name {
    match renamed
    case None => NameOf(BaseName(oldpath))
    case Some(base) =>
      match PathSeparator(oldpath)
      case None => Name(base, ':', "")
      case Some(i) => Name(base, oldpath[i], "")
  }

  function NewPath(oldpath: string, newMdir: Option<string>, flags: Flags, renamed: Option<string>): Option<string>
    requires HasMaildir(oldpath)
  {
    var mdir := MaildirFromPath(oldpath);
    if mdir.None? then None
    else Some(PathFor(if newMdir.Some? then newMdir.value else mdir.value, NewName(oldpath, renamed), flags))
  }

  lemma CurName(base: string, sep: char, tail: string)
    ensures base + [sep] + "2," + tail == base + ([sep] + "2," + tail)
  {}

  /** A message's path for new flags, a new maildir or a fresh name. */
  method GetNewPath(oldpath: string, newMdir: Option<string>, newflags: Flags, renamed: Option<string>)
    returns (newpath: Option<string>)
    requires HasMaildir(oldpath)
    ensures newpath == NewPath(oldpath, newMdir, newflags, renamed)
  {
    hide ToStr, Custom, DropSlashes, LastOf;
    var mdir := MaildirFromPath(oldpath);
    if mdir.None? { return None; }
    var mfile, customFlags, flagsSep := "", "", ':';
    if renamed.Some? {
      mfile := renamed.value;
      var cur := FindPathSeparator(oldpath);
      if cur.Some? { flagsSep := oldpath[cur.value]; }
    } else {
      mfile := BaseName(oldpath);
      var cur := FindPathSeparator(mfile);
      if cur.Some? {
        customFlags := CustomFromStr(mfile[cur.value + 3..]);
        flagsSep := mfile[cur.value];
        mfile := mfile[..cur.value];
      }
    }
    var dir := if newMdir.Some? then newMdir.value else mdir.value;
    if New in newflags { return Some(dir + "/new/" + mfile); }
    var flagstr := FlagsToStr(newflags, MAIL_FILE);
    newpath := Some(dir + "/cur/" + (mfile + [flagsSep] + "2," + (flagstr + customFlags)));
    CurName(mfile, flagsSep, flagstr + customFlags);
  }

  // Names that can be taken apart again

  /** A name of a message: its base is no path, and its custom flags hold no mail-file
      flag. */
  predicate IsName(n: Name) {
    n.base != "" && '/' !in n.base && IsSeparator(n.sep) && IsCustom(n.custom) && '/' !in n.custom
  }

  /** Something in s can be taken for a separator and what follows it. */
  predicate HasInfo(s: string) { exists i :: 0 <= i < |s| && SeparatorAt(s, i) }

  lemma LastOfIs(s: string, c: char, i: nat)
    requires i < |s| && s[i] == c && forall j :: i < j < |s| ==> s[j] != c
    ensures LastOf(s, c) == Some(i)
  {
    var r := LastOf(s, c);
    assert s[i] in s;
    assert forall j :: r.Some? && r.value < j < |s| ==> s[j] == s[r.value + 1..][j - r.value - 1];
  }

  lemma DropNothing(s: string)
    requires s != "" && s[|s| - 1] != '/'
    ensures DropSlashes(s) == s
  {}

  lemma {:induction false} DroppedEnd(s: string)
    requires s != ""
    ensures DropSlashes(s) != "" && (DropSlashes(s) == "/" || DropSlashes(s)[|DropSlashes(s)| - 1] != '/')
  {
    if |s| > 1 && s[|s| - 1] == '/' { DroppedEnd(s[..|s| - 1]); }
  }

  lemma {:induction false} LastSlash(dir: string, file: string)
    requires '/' !in file
    ensures LastOf(dir + "/" + file, '/') == Some(|dir|)
  {
    if file == "" {
      assert dir + "/" + file == dir + "/";
    } else {
      var init := file[..|file| - 1];
      assert file == init + [file[|file| - 1]];
      assert dir + "/" + file == dir + "/" + init + [file[|file| - 1]];
      Cut(dir + "/" + init, [file[|file| - 1]]);
      LastSlash(dir, init);
    }
  }

  lemma NoSlashBehind(s: string)
    requires s != "" && s[|s| - 1] != '/'
    ensures DropSlashes(s + "/") == s
  {
    Cut(s, "/");
    DropNothing(s);
  }

  lemma EndOf(dir: string, file: string)
    requires file != "" && '/' !in file
    ensures var path := dir + "/" + file; path != "" && path[|path| - 1] != '/'
  {
    assert file[|file| - 1] in file;
  }

  /** The file name and the directory of a path with a plain last part. */
  lemma JoinedPath(dir: string, file: string)
    requires file != "" && '/' !in file && dir != "" && dir[|dir| - 1] != '/'
    ensures BaseName(dir + "/" + file) == file && DirName(dir + "/" + file) == dir
  {
    hide LastOf, DropSlashes;
    var path := dir + "/" + file;
    LastSlash(dir, file);
    EndOf(dir, file);
    DropNothing(path);
    NoSlashBehind(dir);
    Cut(dir + "/", file);
  }

  lemma AllSlashes(path: string)
    requires path != ""
    ensures DropSlashes(path) == "/" ==> DirName(path) == "/"
  {
    assert path[..|path|] == path;
  }

  /** The base name of a message is a name without slashes. */
  lemma MessageName(path: string)
    requires HasMaildir(path) && MaildirFromPath(path).Some?
    ensures BaseName(path) != "" && '/' !in BaseName(path)
  {
    if path != "" {
      DroppedEnd(path);
      AllSlashes(path);
    }
  }

  lemma NameFits(mfile: string)
    requires mfile != "" && '/' !in mfile
    ensures IsName(NameOf(mfile))
  {
    var i := PathSeparator(mfile);
    if i.Some? { CustomIsCustom(mfile[i.value + 3..]); } else { CustomIsCustom(""); }
  }

  /** The name of a message is one. */
  lemma MessageHasName(path: string)
    requires HasMaildir(path) && MaildirFromPath(path).Some?
    ensures IsName(NameOf(BaseName(path)))
  {
    hide BaseName, NameOf, MaildirFromPath, HasMaildir, IsName;
    MessageName(path);
    NameFits(BaseName(path));
  }

  // Characters of the info

  /** The info, character by character. */
  lemma InfoChars(n: Name, flags: Flags)
    requires IsSeparator(n.sep) && IsCustom(n.custom)
    ensures var str, info := ToStr(flags, MAIL_FILE), InfoFor(n, flags);
            && |info| == 3 + |str| + |n.custom| && info[0] == n.sep && info[1] == '2' && info[2] == ','
            && (forall j :: 0 <= j < |str| ==> info[3 + j] == str[j] && IsMailFileChar(str[j]))
            && (forall j :: 0 <= j < |n.custom| ==> info[3 + |str| + j] == n.custom[j])
            && info[3..] == str + n.custom
  {
    hide ToStr, FromStr, MailFileFlags;
    FlagsRoundTrip(flags, n.custom);
    var str := ToStr(flags, MAIL_FILE);
    assert InfoFor(n, flags) == ([n.sep] + "2,") + (str + n.custom);
    Cut([n.sep] + "2,", str + n.custom);
  }

  lemma SeparatorBehind(a: string, b: string, i: nat)
    ensures SeparatorAt(a + b, |a| + i) <==> SeparatorAt(b, i)
  {}

  lemma NoSeparatorIn(n: Name, flags: Flags, i: nat)
    requires IsSeparator(n.sep) && IsCustom(n.custom) && 0 < i < 3 + |ToStr(flags, MAIL_FILE)|
    ensures !SeparatorAt(InfoFor(n, flags), i)
  {
    hide ToStr, FromStr, InfoFor;
    InfoChars(n, flags);
    if 3 <= i { assert IsMailFileChar(ToStr(flags, MAIL_FILE)[i - 3]); }
  }

  /** Where something looks like a separator in the file name, from its info on: where
      the info starts, and in the custom flags. */
  lemma SeparatorsIn(n: Name, flags: Flags, i: nat)
    requires IsSeparator(n.sep) && IsCustom(n.custom)
    ensures var k := 3 + |ToStr(flags, MAIL_FILE)|;
            SeparatorAt(FileFor(n, flags), |n.base| + i) <==> i == 0 || (k <= i && SeparatorAt(n.custom, i - k))
  {
    hide ToStr, FromStr, SeparatorAt, IsSeparator, IsCustom;
    var str := ToStr(flags, MAIL_FILE);
    SeparatorBehind(n.base, InfoFor(n, flags), i);
    if i == 0 {
      SeparatorFirst(n, flags);
    } else if i < 3 + |str| {
      NoSeparatorIn(n, flags, i);
    } else {
      var head := [n.sep] + "2," + str;
      assert InfoFor(n, flags) == head + n.custom;
      SeparatorBehind(head, n.custom, i - |head|);
    }
  }

  lemma SeparatorFirst(n: Name, flags: Flags)
    requires IsSeparator(n.sep)
    ensures SeparatorAt(InfoFor(n, flags), 0)
  {
    hide ToStr;
  }

  lemma LastSeparator(s: string, end: nat, i: nat)
    requires 0 < i < end && SeparatorAt(s, i) && forall j :: i < j < end ==> !SeparatorAt(s, j)
    ensures SeparatorBefore(s, end) == Some(i)
  {}

  lemma FileNoSlash(n: Name, flags: Flags)
    requires IsName(n)
    ensures '/' !in FileFor(n, flags)
  {
    hide ToStr, FromStr, InfoFor;
    InfoChars(n, flags);
    var str, info := ToStr(flags, MAIL_FILE), InfoFor(n, flags);
    forall j | 0 <= j < |info| ensures info[j] != '/' {
      if 3 <= j < 3 + |str| { assert IsMailFileChar(str[j - 3]); }
      if 3 + |str| <= j { assert info[3 + |str| + (j - 3 - |str|)] == n.custom[j - 3 - |str|]; }
    }
  }

  // Taking a file name apart

  lemma NameOfAt(mfile: string, i: nat)
    requires PathSeparator(mfile) == Some(i)
    ensures NameOf(mfile) == Name(mfile[..i], mfile[i], Custom(mfile[i + 3..]))
  {}

  lemma PlainNameBack(n: Name, flags: Flags)
    requires IsName(n) && !HasInfo(n.custom)
    ensures NameOf(FileFor(n, flags)) == n
  {
    hide ToStr, FromStr, Custom, MailFileFlags, InfoFor, NameOf;
    var b, file, info := |n.base|, FileFor(n, flags), InfoFor(n, flags);
    forall j | b < j < |file| ensures !SeparatorAt(file, j) { SeparatorsIn(n, flags, j - b); }
    SeparatorsIn(n, flags, 0);
    LastSeparator(file, |file|, b);
    NameOfAt(file, b);
    InfoChars(n, flags);
    FlagsRoundTrip(flags, n.custom);
    Cut(n.base, info);
    assert file[b + 3..] == info[3..];
  }

  /** The last separator of the file name is then one in the custom flags. */
  lemma LastInCustom(n: Name, flags: Flags) returns (k: nat)
    requires IsName(n) && HasInfo(n.custom)
    ensures SeparatorAt(n.custom, k)
    ensures PathSeparator(FileFor(n, flags)) == Some(|n.base| + 3 + |ToStr(flags, MAIL_FILE)| + k)
  {
    hide ToStr, InfoFor, SeparatorAt, IsSeparator, IsCustom;
    var file, c := FileFor(n, flags), 3 + |ToStr(flags, MAIL_FILE)|;
    var j :| 0 <= j < |n.custom| && SeparatorAt(n.custom, j);
    SeparatorsIn(n, flags, c + j);
    SeparatorFits(file, |n.base| + (c + j));
    var i := PathSeparator(file).value - |n.base|;
    SeparatorsIn(n, flags, i);
    k := i - c;
  }

  lemma SeparatorFits(s: string, i: nat)
    requires SeparatorAt(s, i) && 0 < i
    ensures PathSeparator(s).Some? && i <= PathSeparator(s).value && SeparatorAt(s, PathSeparator(s).value)
  {}

  /** A custom flag that looks like a separator is taken for it. */
  lemma WrongNameBack(n: Name, flags: Flags) returns (k: nat)
    requires IsName(n) && HasInfo(n.custom)
    ensures SeparatorAt(n.custom, k)
    ensures NameOf(FileFor(n, flags)) ==
            Name(n.base + ([n.sep] + "2," + (ToStr(flags, MAIL_FILE) + n.custom[..k])), n.custom[k], n.custom[k + 3..])
  {
    hide ToStr, FromStr, Custom, MailFileFlags, InfoFor, FileFor, NameOf, PathSeparator, HasInfo;
    k := LastInCustom(n, flags);
    NameOfAt(FileFor(n, flags), |n.base| + 3 + |ToStr(flags, MAIL_FILE)| + k);
    InfoCut(n, flags, k);
    CustomIsCustom(n.custom[k + 3..]);
  }

  /** Text cut at the k-th character of its last part. */
  lemma CutLast(a: string, b: string, c: string, d: string, k: nat)
    requires k <= |d|
    ensures var s, i := a + (b + (c + d)), |a| + |b| + |c| + k;
            i <= |s| && s[..i] == a + (b + (c + d[..k])) && s[i..] == d[k..]
  {
    assert c + d == (c + d[..k]) + d[k..];
    assert b + (c + d) == (b + (c + d[..k])) + d[k..];
    assert a + (b + (c + d)) == (a + (b + (c + d[..k]))) + d[k..];
    Cut(a + (b + (c + d[..k])), d[k..]);
  }

  lemma InfoCut(n: Name, flags: Flags, k: nat)
    requires IsName(n) && SeparatorAt(n.custom, k)
    ensures var file, i := FileFor(n, flags), |n.base| + 3 + |ToStr(flags, MAIL_FILE)| + k;
            && i + 3 <= |file| && file[i] == n.custom[k] && file[i + 3..] == n.custom[k + 3..]
            && file[..i] == n.base + ([n.sep] + "2," + (ToStr(flags, MAIL_FILE) + n.custom[..k]))
  {
    hide ToStr, IsName, IsCustom, IsSeparator;
    var file, i := FileFor(n, flags), |n.base| + 3 + |ToStr(flags, MAIL_FILE)| + k;
    CutLast(n.base, [n.sep] + "2,", ToStr(flags, MAIL_FILE), n.custom, k);
    assert file[i..] == n.custom[k..];
    assert file[i] == file[i..][0] && file[i + 3..] == file[i..][3..];
  }

  /** A written file name is taken apart into what it was made of if and only if no
      custom flags look like a separator. */
  lemma NameBack(n: Name, flags: Flags)
    requires IsName(n)
    ensures NameOf(FileFor(n, flags)) == n <==> !HasInfo(n.custom)
  {
    if HasInfo(n.custom) {
      var k := WrongNameBack(n, flags);
    } else {
      PlainNameBack(n, flags);
    }
  }

  // Reading the flags back

  lemma CurPath(mdir: string, n: Name, flags: Flags)
    requires New !in flags && IsName(n)
    ensures var path := PathFor(mdir, n, flags);
            && HasMaildir(path) && BaseName(path) == FileFor(n, flags) && DirName(path) == mdir + "/cur"
            && MaildirFromPath(path) == Some(mdir)
  {
    hide FileFor, BaseName, DirName, IsName;
    var dir := mdir + "/cur";
    FileNoSlash(n, flags);
    FileNotEmpty(n, flags);
    assert PathFor(mdir, n, flags) == dir + "/" + FileFor(n, flags);
    JoinedPath(dir, FileFor(n, flags));
    DirOf(mdir, "/cur", dir);
  }

  lemma FileNotEmpty(n: Name, flags: Flags)
    ensures FileFor(n, flags) != ""
  {}

  lemma DirOf(mdir: string, end: string, dir: string)
    requires |end| == 4 && dir == mdir + end
    ensures |dir| == |mdir| + 4 && dir[|dir| - 3..] == end[1..] && dir[..|dir| - 4] == mdir
    ensures dir != "cur" && dir != "new"
  {
    Cut(mdir, end);
    assert dir[|dir| - 3..] == dir[|mdir|..][1..];
  }

  lemma CurIsNotNew(mdir: string)
    ensures BaseName(mdir + "/cur") == "cur"
  {
    var s := mdir + "/cur";
    DropNothing(s);
    LastOfIs(s, '/', |mdir|);
    assert s[|mdir| + 1..] == "cur";
  }

  /** The flags of a path in cur are those of the last 2 in it. */
  lemma CurFlags(mdir: string, n: Name, flags: Flags, i: nat)
    requires New !in flags && IsName(n)
    requires var path := PathFor(mdir, n, flags); i < |path| && path[i] == '2' && forall j :: i < j < |path| ==>
             path[j] != '2'
    ensures var path := PathFor(mdir, n, flags);
            FlagsFromPath(path) ==
            if i == 0 || !IsSeparator(path[i - 1]) || i + 1 == |path| || path[i + 1] != ',' then Some({})
            else FromStr(path[i + 2..], MAIL_FILE, true)
  {
    hide ToStr, FromStr, PathFor, BaseName, DirName, MaildirFromPath, FileFor, LastOf;
    CurPath(mdir, n, flags);
    CurIsNotNew(mdir);
    LastOfIs(PathFor(mdir, n, flags), '2', i);
  }

  /** A path in cur is all before the info, and the info. */
  lemma InfoPart(mdir: string, n: Name, flags: Flags)
    requires New !in flags
    ensures var path, head := PathFor(mdir, n, flags), mdir + "/cur/" + n.base;
            path == head + InfoFor(n, flags) && path[|head|..] == InfoFor(n, flags) &&
              |path| == |head| + |InfoFor(n, flags)|
  {
    hide InfoFor;
    Cut(mdir + "/cur/" + n.base, InfoFor(n, flags));
  }

  lemma NoTwoInInfo(n: Name, flags: Flags)
    requires IsName(n) && '2' !in n.custom
    ensures forall j :: 2 <= j < |InfoFor(n, flags)| ==> InfoFor(n, flags)[j] != '2'
  {
    hide ToStr, InfoFor;
    InfoChars(n, flags);
    var str, info := ToStr(flags, MAIL_FILE), InfoFor(n, flags);
    forall j | 2 <= j < |info| ensures info[j] != '2' {
      if 3 <= j < 3 + |str| { assert IsMailFileChar(str[j - 3]); }
      if 3 + |str| <= j { assert info[3 + |str| + (j - 3 - |str|)] == n.custom[j - 3 - |str|]; }
    }
  }

  lemma NoneBehind(head: string, info: string, c: char, i: nat)
    requires forall j :: i < j < |info| ==> info[j] != c
    ensures forall j :: |head| + i < j < |head + info| ==> (head + info)[j] != c
  {}

  lemma BehindCut(head: string, info: string, i: nat)
    requires i <= |info|
    ensures (head + info)[|head| + i..] == info[i..]
  {}

  lemma InfoStart(n: Name, flags: Flags)
    ensures var info := InfoFor(n, flags);
            && |info| >= 3 && info[0] == n.sep && info[1] == '2' && info[2] == ','
            && info[3..] == ToStr(flags, MAIL_FILE) + n.custom
  {
    hide ToStr;
    Cut([n.sep] + "2,", ToStr(flags, MAIL_FILE) + n.custom);
  }

  lemma PlainFlagsComeBack(mdir: string, n: Name, flags: Flags)
    requires New !in flags && IsName(n) && '2' !in n.custom
    ensures FlagsFromPath(PathFor(mdir, n, flags)) == Some(MailFileFlags(flags))
  {
    hide ToStr, FromStr, MailFileFlags, FlagsFromPath, PathFor, FileFor, InfoFor, IsCustom;
    InfoPart(mdir, n, flags);
    InfoStart(n, flags);
    FlagsRoundTrip(flags, n.custom);
    NoTwoInInfo(n, flags);
    var head, info := mdir + "/cur/" + n.base, InfoFor(n, flags);
    NoneBehind(head, info, '2', 1);
    CurFlags(mdir, n, flags, |head| + 1);
    BehindCut(head, info, 3);
  }

  lemma NoFlagsIn(custom: string)
    requires IsCustom(custom)
    ensures FromStr(custom, MAIL_FILE, true) == Some({})
  {
    FromStrCustom("", custom);
    assert "" + custom == custom;
  }

  lemma NoTwoAfterLast(custom: string)
    requires '2' in custom
    ensures var k := LastOf(custom, '2');
            k.Some? && k.value < |custom| && custom[k.value] == '2' && forall j :: k.value < j < |custom| ==>
              custom[j] != '2'
  {
    var k := LastOf(custom, '2').value;
    forall j | k < j < |custom| ensures custom[j] != '2' { assert custom[j] == custom[k + 1..][j - k - 1]; }
  }

  lemma TwoHidesFlags(mdir: string, n: Name, flags: Flags)
    requires New !in flags && IsName(n) && '2' in n.custom
    ensures FlagsFromPath(PathFor(mdir, n, flags)) == Some({})
  {
    hide ToStr, FromStr, MailFileFlags, FlagsFromPath, PathFor, FileFor, InfoFor, LastOf, MaildirFromPath;
    InfoPart(mdir, n, flags);
    NoTwoAfterLast(n.custom);
    var k, head := LastOf(n.custom, '2').value, mdir + "/cur/" + n.base + ([n.sep] + "2," + ToStr(flags, MAIL_FILE));
    InfoSplit(mdir, n, flags);
    NoneBehind(head, n.custom, '2', k);
    CurFlags(mdir, n, flags, |head| + k);
    if k + 2 <= |n.custom| {
      BehindCut(head, n.custom, k + 2);
      NoFlagsIn(n.custom[k + 2..]);
    }
  }

  lemma InfoSplit(mdir: string, n: Name, flags: Flags)
    requires New !in flags
    ensures PathFor(mdir, n, flags) == mdir + "/cur/" + n.base + ([n.sep] + "2," + ToStr(flags, MAIL_FILE)) + n.custom
  {
    hide ToStr;
  }

  /** The flags read back from a path in cur are the mail-file flags written there,
      unless a custom flag is the digit 2. */
  lemma FlagsComeBack(mdir: string, n: Name, flags: Flags)
    requires New !in flags && IsName(n)
    ensures FlagsFromPath(PathFor(mdir, n, flags)) == Some(MailFileFlags(flags)) <==>
            '2' !in n.custom || MailFileFlags(flags) == {}
  {
    hide FlagsFromPath, PathFor, IsName, MailFileFlags;
    if '2' in n.custom { TwoHidesFlags(mdir, n, flags); } else { PlainFlagsComeBack(mdir, n, flags); }
  }

  // Rewriting

  predicate IsMessage(path: string) { HasMaildir(path) && MaildirFromPath(path).Some? }

  /** The maildir a message goes to. */
  function Target(oldpath: string, newMdir: Option<string>): string
    requires IsMessage(oldpath)
  {
    if newMdir.Some? then newMdir.value else MaildirFromPath(oldpath).value
  }

  lemma NewPathIs(oldpath: string, newMdir: Option<string>, flags: Flags)
    requires IsMessage(oldpath)
    ensures NewPath(oldpath, newMdir, flags, None) ==
            Some(PathFor(Target(oldpath, newMdir), NameOf(BaseName(oldpath)), flags))
  {}

  /** Moving a message to cur puts it in its maildir.  Its name is kept if and only if
      no custom flags look like a separator; the new path shows the new flags if and
      only if there are none or no custom flag is a 2. */
  lemma RewriteKeepsName(oldpath: string, newMdir: Option<string>, flags: Flags)
    requires IsMessage(oldpath) && New !in flags
    ensures var n, path := NameOf(BaseName(oldpath)), NewPath(oldpath, newMdir, flags, None).value;
            && IsMessage(path) && MaildirFromPath(path) == Some(Target(oldpath, newMdir))
            && (NameOf(BaseName(path)) == n <==> !HasInfo(n.custom))
            && (FlagsFromPath(path) == Some(MailFileFlags(flags)) <==> '2' !in n.custom || MailFileFlags(flags) == {})
  {
    hide MailFileFlags, FlagsFromPath, BaseName, NameOf, MaildirFromPath, FileFor, PathFor, IsName, NewPath, Target;
    MessageHasName(oldpath);
    NewPathIs(oldpath, newMdir, flags);
    var n, mdir := NameOf(BaseName(oldpath)), Target(oldpath, newMdir);
    NameBack(n, flags);
    CurPath(mdir, n, flags);
    FlagsComeBack(mdir, n, flags);
  }

  lemma SameStart(head: string, a: string, b: string)
    ensures head + a == head + b <==> a == b
  {
    Cut(head, a);
    Cut(head, b);
  }

  /** Mail-file flags can be moved past custom flags only if there are none. */
  lemma FlagsStay(str: string, a: string, str': string, b: string)
    requires a != "" && !IsMailFileChar(a[0]) && forall i :: 0 <= i < |str'| ==> IsMailFileChar(str'[i])
    ensures str + a + str' + b == str' + (a + b) <==> str == "" && str' == ""
  {
    if str' != "" {
      assert IsMailFileChar((str' + (a + b))[0]);
      if str == "" { assert (str + a + str' + b)[0] == a[0]; }
    } else if str == "" {
      assert str + a + str' + b == str' + (a + b);
    }
  }

  /** A name taken apart in the wrong place, written again. */
  lemma WrongNameAgain(mdir: string, n: Name, k: nat, str: string, flags': Flags)
    requires IsName(n) && SeparatorAt(n.custom, k)
    ensures var n' := Name(n.base + ([n.sep] + "2," + (str + n.custom[..k])), n.custom[k], n.custom[k + 3..]);
            PathFor(mdir, n', flags') == PathFor(mdir, n, flags') <==>
            New !in flags' && str == "" && ToStr(flags', MAIL_FILE) == ""
  {
    hide ToStr, FromStr, IsName;
    var n' := Name(n.base + ([n.sep] + "2," + (str + n.custom[..k])), n.custom[k], n.custom[k + 3..]);
    if New in flags' {
      assert |PathFor(mdir, n', flags')| > |PathFor(mdir, n, flags')|;
    } else {
      var str', a, b := ToStr(flags', MAIL_FILE), n.custom[..k + 3], n.custom[k + 3..];
      var head := mdir + "/cur/" + n.base + ([n.sep] + "2,");
      assert n.custom[..k] + ([n.custom[k]] + "2,") == a && a + b == n.custom;
      assert PathFor(mdir, n', flags') == head + (str + a + str' + b);
      assert PathFor(mdir, n, flags') == head + (str' + (a + b));
      SameStart(head, str + a + str' + b, str' + (a + b));
      CustomStart(n);
      FlagsRoundTrip(flags', "");
      FlagsStay(str, a, str', b);
    }
  }

  lemma CustomStart(n: Name)
    requires IsName(n) && n.custom != ""
    ensures !IsMailFileChar(n.custom[0])
  {}

  /** Rewriting twice is rewriting once with the last flags, if no custom flags look
      like a separator; else only if no flag is written at all. */
  lemma RewriteTwice(oldpath: string, newMdir: Option<string>, flags: Flags, flags': Flags)
    requires IsMessage(oldpath) && New !in flags
    ensures var n, path := NameOf(BaseName(oldpath)), NewPath(oldpath, newMdir, flags, None).value;
            && HasMaildir(path)
            && (NewPath(path, None, flags', None) == NewPath(oldpath, newMdir, flags', None) <==>
                !HasInfo(n.custom) || (New !in flags' && MailFileFlags(flags) == {} && MailFileFlags(flags') == {}))
  {
    hide FlagsFromPath, NameOf, BaseName, PathFor, MailFileFlags, NewPath, IsMessage, MaildirFromPath, HasInfo, Target,
      IsName, ToStr;
    var n, mdir := NameOf(BaseName(oldpath)), Target(oldpath, newMdir);
    NewPathIs(oldpath, newMdir, flags);
    NewPathIs(oldpath, newMdir, flags');
    RewriteKeepsName(oldpath, newMdir, flags);
    MessageSays(oldpath);
    MessageHasName(oldpath);
    CurPath(mdir, n, flags);
    var path := PathFor(mdir, n, flags);
    NewPathIs(path, None, flags');
    TargetIs(path, mdir);
    if HasInfo(n.custom) {
      var k := WrongNameBack(n, flags);
      WrongNameAgain(mdir, n, k, ToStr(flags, MAIL_FILE), flags');
      WrittenIsEmpty(flags);
      WrittenIsEmpty(flags');
    }
  }

  lemma TargetIs(path: string, mdir: string)
    requires IsMessage(path) && MaildirFromPath(path) == Some(mdir)
    ensures Target(path, None) == mdir
  {}

  lemma MessageSays(path: string)
    requires IsMessage(path)
    ensures HasMaildir(path) && MaildirFromPath(path).Some?
  {}

  /** Through new a message loses its separator and custom flags, and its base may be
      taken apart: rewriting twice is rewriting once just when the base holds no
      separator, and the message stays in new or had nothing to lose. */
  lemma RewriteThroughNew(oldpath: string, newMdir: Option<string>, flags: Flags, flags': Flags)
    requires IsMessage(oldpath) && New in flags
    ensures var n, path := NameOf(BaseName(oldpath)), NewPath(oldpath, newMdir, flags, None).value;
            && HasMaildir(path)
            && (NewPath(path, None, flags', None) == NewPath(oldpath, newMdir, flags', None) <==>
                PathSeparator(n.base).None? && (New in flags' || (n.sep == ':' && n.custom == "")))
  {
    hide ToStr, FromStr, PathFor, BaseName, NameOf, DirName, MaildirFromPath, IsName, NewPath, Target;
    var n, mdir := NameOf(BaseName(oldpath)), Target(oldpath, newMdir);
    MessageHasName(oldpath);
    NameSays(n);
    NewPathIs(oldpath, newMdir, flags);
    NewPathIs(oldpath, newMdir, flags');
    NewDirPath(mdir, n, flags);
    var path := PathFor(mdir, n, flags);
    NewPathIs(path, None, flags');
    TargetIs(path, mdir);
    if PathSeparator(n.base).None? {
      BareName(n.base);
      SamePath(mdir, Name(n.base, ':', ""), n, flags');
    } else {
      CutNameDiffers(mdir, n, flags');
    }
  }

  lemma NameSays(n: Name)
    requires IsName(n)
    ensures n.base != "" && '/' !in n.base
  {}

  lemma BareName(base: string)
    requires PathSeparator(base).None?
    ensures NameOf(base) == Name(base, ':', "")
  {}

  lemma {:induction false} CustomIsShorter(str: string)
    ensures |Custom(str)| <= |str|
  {
    if str != "" { CustomIsShorter(str[..|str| - 1]); }
  }

  lemma CutNameDiffers(mdir: string, n: Name, flags: Flags)
    requires PathSeparator(n.base).Some?
    ensures PathFor(mdir, NameOf(n.base), flags) != PathFor(mdir, n, flags)
  {
    hide ToStr, Custom;
    var i := PathSeparator(n.base).value;
    CustomIsShorter(n.base[i + 3..]);
    assert |PathFor(mdir, NameOf(n.base), flags)| < |PathFor(mdir, n, flags)|;
  }

  lemma NewDirPath(mdir: string, n: Name, flags: Flags)
    requires New in flags && n.base != "" && '/' !in n.base
    ensures var path := PathFor(mdir, n, flags);
            && IsMessage(path) && BaseName(path) == n.base && DirName(path) == mdir + "/new"
            && MaildirFromPath(path) == Some(mdir)
  {
    hide ToStr, BaseName, DirName;
    var dir := mdir + "/new";
    assert PathFor(mdir, n, flags) == dir + "/" + n.base;
    JoinedPath(dir, n.base);
    DirOf(mdir, "/new", dir);
  }

  lemma SamePath(mdir: string, a: Name, b: Name, flags: Flags)
    requires a.base == b.base
    ensures PathFor(mdir, a, flags) == PathFor(mdir, b, flags) <==>
            New in flags || (a.sep == b.sep && a.custom == b.custom)
  {
    hide ToStr;
    if New !in flags {
      SameStart(mdir + "/cur/" + a.base, InfoFor(a, flags), InfoFor(b, flags));
      assert PathFor(mdir, a, flags) == mdir + "/cur/" + a.base + InfoFor(a, flags);
      assert PathFor(mdir, b, flags) == mdir + "/cur/" + a.base + InfoFor(b, flags);
      SameInfo(a, b, flags);
    }
  }

  lemma SameInfo(a: Name, b: Name, flags: Flags)
    ensures InfoFor(a, flags) == InfoFor(b, flags) <==> a.sep == b.sep && a.custom == b.custom
  {
    hide ToStr;
    var str := ToStr(flags, MAIL_FILE);
    assert InfoFor(a, flags)[0] == a.sep && InfoFor(b, flags)[0] == b.sep;
    if a.sep == b.sep {
      SameStart([a.sep] + "2,", str + a.custom, str + b.custom);
      SameStart(str, a.custom, b.custom);
    }
  }

  /** A message in new shows that it is new, and nothing else. */
  lemma NewIsNew(mdir: string, n: Name, flags: Flags)
    requires New in flags && n.base != "" && '/' !in n.base
    ensures FlagsFromPath(PathFor(mdir, n, flags)) == Some({New})
  {
    hide FromStr, BaseName, DirName, MaildirFromPath;
    var path, dir := PathFor(mdir, n, flags), mdir + "/new";
    NewDirPath(mdir, n, flags);
    NewBase(mdir);
    assert path == mdir + "/new/" + n.base && OccursAt(path, "/new/", |mdir|);
  }

  lemma NewBase(mdir: string)
    ensures BaseName(mdir + "/new") == "new"
  {
    var s := mdir + "/new";
    DropNothing(s);
    LastOfIs(s, '/', |mdir|);
    assert s[|mdir| + 1..] == "new";
  }

  // Written out

  /** The path of a message in cur, for any of the three separators. */
  function CurText(mdir: string, base: string, sep: char, flags: string, custom: string): string {
    mdir + "/cur/" + base + [sep] + "2," + flags + custom
  }

  lemma CurTextIs(mdir: string, n: Name, flags: Flags)
    requires New !in flags
    ensures PathFor(mdir, n, flags) == CurText(mdir, n.base, n.sep, ToStr(flags, MAIL_FILE), n.custom)
  {
    hide ToStr;
  }

  /** A message in cur shows the flags written there; it moves to new under its base
      name, and in cur gets its new flags, with its separator and custom flags. */
  lemma RewriteIs(mdir: string, base: string, sep: char, custom: string, flags: Flags, flags': Flags)
    requires base != "" && '/' !in base && (sep == ':' || sep == '!' || sep == ';')
    requires IsCustom(custom) && '/' !in custom && '2' !in custom && New !in flags
    ensures var oldpath := CurText(mdir, base, sep, ToStr(flags, MAIL_FILE), custom);
            && HasMaildir(oldpath) && FlagsFromPath(oldpath) == Some(MailFileFlags(flags))
            && NewPath(oldpath, None, flags', None) ==
               Some(if New in flags' then mdir + "/new/" + base
                    else CurText(mdir, base, sep, ToStr(flags', MAIL_FILE), custom))
  {
    hide ToStr, FromStr, MailFileFlags, FlagsFromPath, PathFor, NameOf, BaseName, NewPath, Target, IsCustom, FileFor,
      CurText,
      MaildirFromPath;
    var n := Name(base, sep, custom);
    CurTextIs(mdir, n, flags);
    PlainNameBack(n, flags);
    CurPath(mdir, n, flags);
    PlainFlagsComeBack(mdir, n, flags);
    var oldpath := PathFor(mdir, n, flags);
    NewPathIs(oldpath, None, flags');
    TargetIs(oldpath, mdir);
    if New in flags' { NewText(mdir, n, flags'); } else { CurTextIs(mdir, n, flags'); }
  }

  lemma NewText(mdir: string, n: Name, flags: Flags)
    requires New in flags
    ensures PathFor(mdir, n, flags) == mdir + "/new/" + n.base
  {}

  /** A message in new shows that it is new; in cur it gets a colon and its flags. */
  lemma FromNewIs(mdir: string, base: string, flags: Flags)
    requires base != "" && '/' !in base && ':' !in base && '!' !in base && ';' !in base
    ensures var oldpath := mdir + "/new/" + base;
            && HasMaildir(oldpath) && FlagsFromPath(oldpath) == Some({New})
            && NewPath(oldpath, None, flags, None) ==
               Some(if New in flags then oldpath else CurText(mdir, base, ':', ToStr(flags, MAIL_FILE), ""))
  {
    hide ToStr, FromStr, FlagsFromPath, BaseName, NewPath, Target, FileFor, CurText, MaildirFromPath, DirName;
    var n := Name(base, ':', "");
    var oldpath := PathFor(mdir, n, {New});
    NewText(mdir, n, {New});
    NewDirPath(mdir, n, {New});
    NewIsNew(mdir, n, {New});
    NewPathIs(oldpath, None, flags);
    TargetIs(oldpath, mdir);
    if New in flags { NewText(mdir, n, flags); } else { CurTextIs(mdir, n, flags); }
  }

  lemma PlainSeparator(n: Name, flags: Flags)
    requires n.base != "" && IsSeparator(n.sep) && IsCustom(n.custom) && !HasInfo(n.custom)
    ensures PathSeparator(FileFor(n, flags)) == Some(|n.base|) && FileFor(n, flags)[|n.base|] == n.sep
  {
    hide ToStr, IsSeparator, IsCustom, SeparatorAt;
    var b, file := |n.base|, FileFor(n, flags);
    forall j | b < j < |file| ensures !SeparatorAt(file, j) { SeparatorsIn(n, flags, j - b); }
    SeparatorsIn(n, flags, 0);
    LastSeparator(file, |file|, b);
  }

  /** Under a name that is given a message keeps its separator, but no custom flags. */
  lemma RenameIs(mdir: string, base: string, sep: char, custom: string, flags: Flags, newMdir: Option<string>,
                 given: string, flags': Flags)
    requires base != "" && '/' !in base && (sep == ':' || sep == '!' || sep == ';')
    requires IsCustom(custom) && '/' !in custom && '2' !in custom && New !in flags
    ensures var oldpath := CurText(mdir, base, sep, ToStr(flags, MAIL_FILE), custom);
            var dir := if newMdir.Some? then newMdir.value else mdir;
            && HasMaildir(oldpath)
            && NewPath(oldpath, newMdir, flags', Some(given)) ==
               Some(if New in flags' then dir + "/new/" + given
                    else CurText(dir, given, sep, ToStr(flags', MAIL_FILE), ""))
  {
    hide ToStr, FromStr, MailFileFlags, FlagsFromPath, PathFor, NameOf, BaseName, IsCustom, FileFor, CurText,
      MaildirFromPath;
    var n, whole := Name(base, sep, custom), Name(mdir + "/cur/" + base, sep, custom);
    CurTextIs(mdir, n, flags);
    CurPath(mdir, n, flags);
    WholeFile(mdir, n, flags);
    PlainSeparator(whole, flags);
    var dir, n' := if newMdir.Some? then newMdir.value else mdir, Name(given, sep, "");
    if New in flags' { NewText(dir, n', flags'); } else { CurTextIs(dir, n', flags'); }
  }

  lemma WholeFile(mdir: string, n: Name, flags: Flags)
    requires New !in flags
    ensures PathFor(mdir, n, flags) == FileFor(n.(base := mdir + "/cur/" + n.base), flags)
  {
    hide ToStr;
    assert mdir + "/cur/" + (n.base + InfoFor(n, flags)) == mdir + "/cur/" + n.base + InfoFor(n, flags);
  }
}
