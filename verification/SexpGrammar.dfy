/** Exactly which texts are s-expressions, and what they mean, without regard to the
    parser. */
module SexpGrammar {
  import opened Wrappers
  import opened Decimal
  import opened Sexps
  import opened SexpRoundTrip

  /** A part of a string: a character as such; or a backslash, characters it has no
      power over, and the quote or backslash it makes one of the string. */
  datatype Part = Plain(c: char) | Escape(before: string, c: char)

  /** An s-expression as written, with the blanks before each item of a list and
      before its closing bracket. */
  datatype Doc =
    | StrDoc(parts: seq<Part>)
    | NumDoc(minus: bool, digits: string)
    | SymDoc(text: string)
    | ListDoc(items: Items, close: string)

  datatype Items = NoItems | Item(blanks: string, doc: Doc, rest: Items)

  // Characters, written out

  predicate Blank(s: string) { forall c <- s :: c == ' ' || c == '\t' || c == '\n' }

  predicate IsLetter(c: char) { 'a' <= c <= 'z' || 'A' <= c <= 'Z' }

  predicate IsFigure(c: char) { '0' <= c <= '9' }

  /** c would go on with what d ends with. */
  predicate GoesOn(d: Doc, c: char) {
    (d.SymDoc? && (IsLetter(c) || IsFigure(c) || c == '-')) || (d.NumDoc? && IsFigure(c))
  }

  // Texts

  function PartText(p: Part): string {
    match p
    case Plain(c) => [c]
    case Escape(before, c) => "\\" + before + [c]
  }

  function PartsText(ps: seq<Part>): string { if ps == [] then "" else PartText(ps[0]) + PartsText(ps[1..]) }

  function DocText(d: Doc): string {
    match d
    case StrDoc(parts) => "\"" + (PartsText(parts) + "\"")
    case NumDoc(minus, digits) => if minus then "-" + digits else digits
    case SymDoc(text) => text
    case ListDoc(items, close) => "(" + (ItemsText(items) + (close + ")"))
  }

  function ItemsText(items: Items): string {
    match items
    case NoItems => ""
    case Item(blanks, doc, rest) => blanks + (DocText(doc) + ItemsText(rest))
  }

  predicate ProperPart(p: Part) {
    match p
    case Plain(c) => c != '"' && c != '\\'
    case Escape(before, c) => '"' !in before && '\\' !in before && (c == '"' || c == '\\')
  }

  /** Symbols start with a letter or a colon and go on with letters, digits and
      hyphens; items are parted where the first would go on with the next; an empty
      list has no blanks in it. */
  predicate Proper(d: Doc) {
    match d
    case StrDoc(parts) => forall p <- parts :: ProperPart(p)
    case NumDoc(minus, digits) => (minus || digits != "") && forall c <- digits :: IsFigure(c)
    case SymDoc(text) =>
      && text != "" && (IsLetter(text[0]) || text[0] == ':')
      && forall i :: 1 <= i < |text| ==> IsLetter(text[i]) || IsFigure(text[i]) || text[i] == '-'
    case ListDoc(items, close) => Blank(close) && (items.NoItems? ==> close == "") && ProperItems(items)
  }

  predicate ProperItems(items: Items) {
    match items
    case NoItems => true
    case Item(blanks, doc, rest) =>
      && Blank(blanks) && Proper(doc) && ProperItems(rest)
      && (rest.Item? && rest.blanks == "" && DocText(rest.doc) != "" ==> !GoesOn(doc, DocText(rest.doc)[0]))
  }

  // Meanings

  function PartsValue(ps: seq<Part>): string {
    if ps == [] then ""
    else (match ps[0] case Plain(c) => [c] case Escape(before, c) => before + [c]) + PartsValue(ps[1..])
  }

  /** The nearest number that 64 bits can hold, and of that the lower 32 bits with
      their sign. */
  function Kept(n: int): int {
    var near :=
      if n > 0x7fff_ffff_ffff_ffff then 0x7fff_ffff_ffff_ffff
      else if n < -0x8000_0000_0000_0000 then -0x8000_0000_0000_0000 else n;
    var low := near % 0x1_0000_0000;
    if low < 0x8000_0000 then low else low - 0x1_0000_0000
  }

  /** What is kept of the number of the digits, none being zero. */
  function NumberOf(minus: bool, digits: string): int
    requires forall c <- digits :: IsFigure(c)
  {
    assert forall i :: 0 <= i < |digits| ==> IsFigure(digits[i]);
    Kept(if minus then 0 - Number(digits) else Number(digits))
  }

  function DocValue(d: Doc): Sexp
    requires Proper(d)
  {
    match d
    case StrDoc(parts) => Str(PartsValue(parts))
    case NumDoc(minus, digits) => Num(Decimals(NumberOf(minus, digits)))
    case SymDoc(text) => Sym(text)
    case ListDoc(items, _) => List(ItemValues(items))
  }

  function ItemValues(items: Items): seq<Sexp>
    requires ProperItems(items)
  {
    match items
    case NoItems => []
    case Item(_, doc, rest) => [DocValue(doc)] + ItemValues(rest)
  }

  /** The text at pos ends there for d: nothing follows that it would go on with. */
  predicate Stops(e: string, pos: nat, d: Doc) { pos < |e| ==> !GoesOn(d, e[pos]) }

  // Strings

  lemma {:induction false} BeforeIsRead(e: string, pos: nat, before: string, c: char, str: string)
    requires '"' !in before && '\\' !in before && (c == '"' || c == '\\') && At(e, pos, before + [c])
    ensures StringRest(e, pos, true, str) == StringRest(e, pos + |before| + 1, false, str + before + [c])
    decreases before
  {
    AtChar(e, pos, before + [c], 0);
    if before == "" {
      assert before + [c] == [c] && str + before + [c] == str + [c];
    } else {
      assert before[0] in before;
      assert before + [c] == [before[0]] + (before[1..] + [c]);
      AtParts(e, pos, [before[0]], before[1..] + [c]);
      BeforeIsRead(e, pos + 1, before[1..], c, str + [before[0]]);
      assert str + [before[0]] + before[1..] == str + before;
    }
  }

  lemma PartIsRead(e: string, pos: nat, p: Part, str: string)
    requires ProperPart(p) && At(e, pos, PartText(p))
    ensures StringRest(e, pos, false, str) == StringRest(e, pos + |PartText(p)|, false, str + PartsValue([p]))
  {
    AtChar(e, pos, PartText(p), 0);
    match p
    case Plain(c) => assert PartsValue([p]) == [c];
    case Escape(before, c) =>
      assert PartText(p) == "\\" + (before + [c]) && PartsValue([p]) == before + [c];
      AtParts(e, pos, "\\", before + [c]);
      BeforeIsRead(e, pos + 1, before, c, str);
      assert str + before + [c] == str + (before + [c]);
  }

  lemma {:induction false} PartsAreRead(e: string, pos: nat, ps: seq<Part>, str: string)
    requires (forall p <- ps :: ProperPart(p)) && At(e, pos, PartsText(ps) + "\"")
    ensures StringRest(e, pos, false, str) == Ok((str + PartsValue(ps), pos + |PartsText(ps)| + 1))
    decreases ps
  {
    hide At, ProperPart, PartText, StringRest;
    if ps == [] {
      assert PartsText(ps) + "\"" == "\"" && str + PartsValue(ps) == str;
      AtChar(e, pos, "\"", 0);
      QuoteEnds(e, pos, str);
    } else {
      var head, more := PartText(ps[0]), PartsText(ps[1..]) + "\"";
      assert PartsText(ps) + "\"" == head + more;
      AtParts(e, pos, head, more);
      PartIsRead(e, pos, ps[0], str);
      PartsAreRead(e, pos + |head|, ps[1..], str + PartsValue([ps[0]]));
      assert str + PartsValue([ps[0]]) + PartsValue(ps[1..]) == str + PartsValue(ps) by { FirstPartValue(ps); }
    }
  }

  lemma QuoteEnds(e: string, pos: nat, str: string)
    requires pos < |e| && e[pos] == '"'
    ensures StringRest(e, pos, false, str) == Ok((str, pos + 1))
  {}

  lemma FirstPartValue(ps: seq<Part>)
    requires ps != []
    ensures PartsValue(ps) == PartsValue([ps[0]]) + PartsValue(ps[1..])
  {
    assert [ps[0]][1..] == [];
  }

  // Every proper text is read

  lemma NumIsRead(e: string, pos: nat, d: Doc)
    requires d.NumDoc? && Proper(d) && At(e, pos, DocText(d)) && Stops(e, pos + |DocText(d)|, d)
    ensures pos < |e| && (IsDigit(e[pos]) || e[pos] == '-') &&
            ParseAtom(e, pos) == Ok((DocValue(d), pos + |DocText(d)|))
  {
    hide Atoi, Decimals, StringRest;
    var t := DocText(d);
    AtChar(e, pos, t, 0);
    assert t[0] == '-' || t[0] in d.digits;
    forall i | pos + 1 <= i < pos + |t| ensures IsDigit(e[i]) {
      AtChar(e, pos, t, i - pos);
      assert t[i - pos] in d.digits;
    }
    RunEndIs(e, pos + 1, IsDigit, pos + |t|);
    AtoiIs(d.minus, d.digits);
  }

  lemma {:induction false} RunOfFigures(digits: string)
    requires forall c <- digits :: IsFigure(c)
    ensures DigitRun(digits) == digits
  {
    if digits != "" {
      assert digits[0] in digits;
      RunOfFigures(digits[1..]);
    }
  }

  lemma KeptIs(n: int)
    ensures ToInt32(Clamp(n)) == Kept(n)
  {}

  lemma AtoiIs(minus: bool, digits: string)
    requires (minus || digits != "") && forall c <- digits :: IsFigure(c)
    ensures Atoi(if minus then "-" + digits else digits) == NumberOf(minus, digits)
  {
    hide ToInt32, Clamp, Kept, Number;
    RunOfFigures(digits);
    KeptIs(if minus then 0 - Number(digits) else Number(digits));
    if minus {
      assert ("-" + digits)[1..] == digits;
    } else {
      assert digits[0] in digits;
    }
  }

  lemma SymIsRead(e: string, pos: nat, d: Doc)
    requires d.SymDoc? && Proper(d) && At(e, pos, DocText(d)) && Stops(e, pos + |DocText(d)|, d)
    ensures pos < |e| && IsSymbolStart(e[pos]) && ParseAtom(e, pos) == Ok((DocValue(d), pos + |DocText(d)|))
  {
    hide Atoi, Decimals, StringRest;
    var t := d.text;
    AtChar(e, pos, t, 0);
    forall i | pos + 1 <= i < pos + |t| ensures IsSymbolChar(e[i]) { AtChar(e, pos, t, i - pos); }
    RunEndIs(e, pos + 1, IsSymbolChar, pos + |t|);
  }

  lemma StrIsRead(e: string, pos: nat, d: Doc)
    requires d.StrDoc? && Proper(d) && At(e, pos, DocText(d))
    ensures pos < |e| && e[pos] == '"' && ParseAtom(e, pos) == Ok((DocValue(d), pos + |DocText(d)|))
  {
    hide StringRest, PartsText, PartsValue, At, ProperPart;
    AtParts(e, pos, "\"", PartsText(d.parts) + "\"");
    AtChar(e, pos, "\"", 0);
    PartsAreRead(e, pos + 1, d.parts, "");
    assert "" + PartsValue(d.parts) == PartsValue(d.parts);
  }

  lemma BlanksEnd(e: string, pos: nat, blanks: string)
    requires Blank(blanks) && At(e, pos, blanks)
    requires pos + |blanks| < |e| ==> !IsBlank(e[pos + |blanks|])
    ensures SkipWhitespace(e, pos) == pos + |blanks|
  {
    forall i | pos <= i < pos + |blanks| ensures IsBlank(e[i]) {
      AtChar(e, pos, blanks, i - pos);
      assert blanks[i - pos] in blanks;
    }
    RunEndIs(e, pos, IsBlank, pos + |blanks|);
  }

  /** A text is read as what it means, where it stops. */
  lemma {:induction false} DocIsRead(e: string, pos: nat, d: Doc)
    requires Proper(d) && At(e, pos, DocText(d)) && Stops(e, pos + |DocText(d)|, d)
    ensures pos < |e| && !IsBlank(e[pos]) && e[pos] != ')'
    ensures ParseAt(e, pos) == Ok((DocValue(d), SkipWhitespace(e, pos + |DocText(d)|)))
    decreases d, 1
  {
    hide ParseAtom, ParseItems, RunEnd, At, ItemsText, Stops;
    match d
    case StrDoc(_) => StrIsRead(e, pos, d); RunEndIs(e, pos, IsBlank, pos);
    case NumDoc(_, _) => NumIsRead(e, pos, d); RunEndIs(e, pos, IsBlank, pos);
    case SymDoc(_) => SymIsRead(e, pos, d); RunEndIs(e, pos, IsBlank, pos);
    case ListDoc(items, close) =>
      var inner := ItemsText(items) + (close + ")");
      AtChar(e, pos, DocText(d), 0);
      AtParts(e, pos, "(", inner);
      if items.NoItems? {
        EmptyIsRead(e, pos + 1, items);
      } else {
        ItemsAreRead(e, pos + 1, items, close);
      }
      RunEndIs(e, pos, IsBlank, pos);
  }

  lemma EmptyIsRead(e: string, pos: nat, items: Items)
    requires items.NoItems? && At(e, pos, ItemsText(items) + ("" + ")"))
    ensures ParseItems(e, pos) == Ok((ItemValues(items), pos + 1))
    ensures |ItemsText(items) + ("" + ")")| == 1
  {
    assert ItemsText(items) + ("" + ")") == ")";
    AtChar(e, pos, ")", 0);
  }

  lemma DocStarts(d: Doc)
    requires Proper(d)
    ensures DocText(d) != "" && !IsBlank(DocText(d)[0]) && DocText(d)[0] != ')'
  {
    if d.NumDoc? && !d.minus { assert d.digits[0] in d.digits; }
  }

  /** What comes after an item's text. */
  function Behind(items: Items, close: string): string
    requires items.Item?
  {
    ItemsText(items.rest) + (close + ")")
  }

  lemma StopsBehind(e: string, end: nat, items: Items, close: string)
    requires items.Item? && ProperItems(items) && Blank(close) && At(e, end, Behind(items, close))
    ensures Stops(e, end, items.doc)
  {
    hide At, DocText, Proper;
    var rest := items.rest;
    if rest.NoItems? {
      assert Behind(items, close) == close + ")";
      AtChar(e, end, close + ")", 0);
      if close != "" { assert (close + ")")[0] in close; }
    } else {
      DocStarts(rest.doc);
      var more := DocText(rest.doc) + (ItemsText(rest.rest) + (close + ")"));
      assert Behind(items, close) == rest.blanks + more;
      AtChar(e, end, rest.blanks + more, 0);
      if rest.blanks != "" { assert (rest.blanks + more)[0] in rest.blanks; }
    }
  }

  /** Blanks before an item make no difference. */
  lemma ItemsSkip(e: string, pos: nat)
    requires pos <= |e| && SkipWhitespace(e, pos) < |e| && e[SkipWhitespace(e, pos)] != ')'
    ensures ParseItems(e, pos) == ParseItems(e, SkipWhitespace(e, pos))
  {
    hide ParseAtom, ParseList;
    var start := SkipWhitespace(e, pos);
    RunEndIs(e, start, IsBlank, start);
    assert ParseAt(e, pos) == ParseAt(e, start);
  }

  lemma FirstIsRead(e: string, pos: nat, blanks: string, d: Doc)
    requires Blank(blanks) && At(e, pos, blanks) && Proper(d)
    requires At(e, pos + |blanks|, DocText(d)) && Stops(e, pos + |blanks| + |DocText(d)|, d)
    ensures SkipWhitespace(e, pos) == pos + |blanks|
    ensures ParseAt(e, pos) == Ok((DocValue(d), SkipWhitespace(e, pos + |blanks| + |DocText(d)|)))
    ensures pos < |e| && e[pos] != ')'
    decreases d, 2
  {
    hide ParseAtom, ParseItems, RunEnd, At, DocText, DocValue, Proper, Stops, ParseList;
    DocIsRead(e, pos + |blanks|, d);
    BlanksEnd(e, pos, blanks);
    RunEndIs(e, pos + |blanks|, IsBlank, pos + |blanks|);
    if blanks != "" {
      AtChar(e, pos, blanks, 0);
      assert blanks[0] in blanks;
    }
  }

  lemma {:induction false} ItemsAreRead(e: string, pos: nat, items: Items, close: string)
    requires items.Item? && ProperItems(items) && Blank(close) && At(e, pos, ItemsText(items) + (close + ")"))
    ensures ParseItems(e, pos) == Ok((ItemValues(items), pos + |ItemsText(items)| + |close| + 1))
    decreases items
  {
    hide ParseAt, ParseItems, At, RunEnd, Proper, DocText, DocValue, SkipWhitespace, Stops, Blank, Behind;
    var Item(blanks, d, rest) := items;
    var start := pos + |blanks|;
    var end := start + |DocText(d)|;
    ItemsSplit(items, close);
    AtParts(e, pos, blanks, DocText(d) + Behind(items, close));
    AtParts(e, start, DocText(d), Behind(items, close));
    StopsBehind(e, end, items, close);
    FirstIsRead(e, pos, blanks, d);
    if items.rest.NoItems? {
      LastIsRead(e, end, items, close);
    } else {
      NextStarts(e, end, items, close);
      ItemsAreRead(e, end, items.rest, close);
      ItemsSkip(e, end);
    }
    OneMoreItem(e, pos, DocValue(d), SkipWhitespace(e, end), ItemValues(items.rest),
                pos + |ItemsText(items)| + |close| + 1);
  }

  lemma ItemsSplit(items: Items, close: string)
    requires items.Item?
    ensures ItemsText(items) + (close + ")") == items.blanks + (DocText(items.doc) + Behind(items, close))
    ensures Behind(items, close) == ItemsText(items.rest) + (close + ")")
    ensures |ItemsText(items)| == |items.blanks| + |DocText(items.doc)| + |ItemsText(items.rest)|
  {
    hide DocText;
    var a, b, c, r := items.blanks, DocText(items.doc), ItemsText(items.rest), close + ")";
    Regroup(a, b + c, r);
    Regroup(b, c, r);
  }

  lemma Regroup(a: string, b: string, c: string)
    ensures a + b + c == a + (b + c)
  {}

  lemma LastIsRead(e: string, end: nat, items: Items, close: string)
    requires items.Item? && items.rest.NoItems? && Blank(close) && At(e, end, Behind(items, close))
    ensures SkipWhitespace(e, end) == end + |close|
    ensures ParseItems(e, SkipWhitespace(e, end)) == Ok(([], end + |close| + 1))
    ensures ItemsText(items.rest) == "" && ItemValues(NoItems) == []
  {
    hide ParseAt;
    assert Behind(items, close) == close + ")";
    AtParts(e, end, close, ")");
    AtChar(e, end + |close|, ")", 0);
    BlanksEnd(e, end, close);
  }

  lemma NextStarts(e: string, end: nat, items: Items, close: string)
    requires items.Item? && items.rest.Item? && ProperItems(items) && At(e, end, Behind(items, close))
    ensures end <= |e| && SkipWhitespace(e, end) < |e| && e[SkipWhitespace(e, end)] != ')'
    ensures At(e, end, ItemsText(items.rest) + (close + ")"))
  {
    hide At, DocText, Proper, RunEnd;
    var rest := items.rest;
    DocStarts(rest.doc);
    var more := DocText(rest.doc) + (ItemsText(rest.rest) + (close + ")"));
    assert Behind(items, close) == rest.blanks + more;
    AtParts(e, end, rest.blanks, more);
    AtChar(e, end + |rest.blanks|, more, 0);
    BlanksEnd(e, end, rest.blanks);
  }

  // Every text that is read is proper

  lemma {:induction false} EscapeWasRead(e: string, pos: nat, str: string)
    returns (before: string, c: char, ps: seq<Part>)
    requires pos <= |e| && StringRest(e, pos, true, str).Ok?
    ensures '"' !in before && '\\' !in before && (c == '"' || c == '\\') && forall p <- ps :: ProperPart(p)
    ensures var t := before + [c] + (PartsText(ps) + "\"");
            && At(e, pos, t)
            && StringRest(e, pos, true, str) == Ok((str + (before + [c]) + PartsValue(ps), pos + |t|))
    decreases |e| - pos
  {
    hide At, PartsText, PartsValue, ProperPart;
    if e[pos] == '"' || e[pos] == '\\' {
      before, c := "", e[pos];
      ps := PartsWereRead(e, pos + 1, str + [c]);
      assert "" + [c] == [c];
    } else {
      var b;
      b, c, ps := EscapeWasRead(e, pos + 1, str + [e[pos]]);
      before := [e[pos]] + b;
      assert before + [c] + (PartsText(ps) + "\"") == [e[pos]] + (b + [c] + (PartsText(ps) + "\""));
      assert str + [e[pos]] + (b + [c]) == str + (before + [c]);
    }
    AtFirst(e, pos, before + [c] + (PartsText(ps) + "\""));
  }

  lemma AtFirst(e: string, pos: nat, t: string)
    requires pos < |e| && t != "" && t[0] == e[pos] && At(e, pos + 1, t[1..])
    ensures At(e, pos, t)
  {
    assert e[pos..pos + |t|] == [e[pos]] + e[pos + 1..pos + |t|];
  }

  lemma {:induction false} PartsWereRead(e: string, pos: nat, str: string) returns (ps: seq<Part>)
    requires pos <= |e| && StringRest(e, pos, false, str).Ok?
    ensures forall p <- ps :: ProperPart(p)
    ensures At(e, pos, PartsText(ps) + "\"")
    ensures StringRest(e, pos, false, str) == Ok((str + PartsValue(ps), pos + |PartsText(ps)| + 1))
    decreases |e| - pos
  {
    hide At, StringRest, PartsText, PartsValue, PartText, ProperPart;
    StringStep(e, pos, str);
    if e[pos] == '"' {
      ps := [];
      NoParts(e, pos, str);
    } else if e[pos] == '\\' {
      var before, c, more := EscapeWasRead(e, pos + 1, str);
      ps := [Escape(before, c)] + more;
      MoreParts(Escape(before, c), more, str);
      EscapeText(before, c, PartsText(more) + "\"");
      AtFirst(e, pos, PartText(Escape(before, c)) + (PartsText(more) + "\""));
    } else {
      var more := PartsWereRead(e, pos + 1, str + [e[pos]]);
      ps := [Plain(e[pos])] + more;
      MoreParts(Plain(e[pos]), more, str);
      PlainText(e[pos], PartsText(more) + "\"");
      AtFirst(e, pos, PartText(Plain(e[pos])) + (PartsText(more) + "\""));
    }
  }

  lemma StringStep(e: string, pos: nat, str: string)
    requires pos <= |e| && StringRest(e, pos, false, str).Ok?
    ensures pos < |e|
    ensures StringRest(e, pos, false, str) ==
            if e[pos] == '"' then Ok((str, pos + 1))
            else if e[pos] == '\\' then StringRest(e, pos + 1, true, str)
            else StringRest(e, pos + 1, false, str + [e[pos]])
  {}

  lemma NoParts(e: string, pos: nat, str: string)
    requires pos < |e| && e[pos] == '"'
    ensures At(e, pos, PartsText([]) + "\"") && str + PartsValue([]) == str && |PartsText([])| == 0
  {
    assert PartsText([]) + "\"" == "\"";
  }

  lemma EscapeText(before: string, c: char, rest: string)
    requires '"' !in before && '\\' !in before && (c == '"' || c == '\\')
    ensures var t := PartText(Escape(before, c)) + rest;
            t != "" && t[0] == '\\' && t[1..] == before + [c] + rest && ProperPart(Escape(before, c))
  {
    assert PartText(Escape(before, c)) + rest == "\\" + (before + [c] + rest);
  }

  lemma PlainText(c: char, rest: string)
    requires c != '"' && c != '\\'
    ensures var t := PartText(Plain(c)) + rest;
            t != "" && t[0] == c && t[1..] == rest && ProperPart(Plain(c))
  {}

  lemma MoreParts(p: Part, ps: seq<Part>, str: string)
    ensures var all := [p] + ps;
            && PartsText(all) + "\"" == PartText(p) + (PartsText(ps) + "\"")
            && |PartsText(all)| == |PartText(p)| + |PartsText(ps)|
            && str + PartsValue(all) == str + PartsValue([p]) + PartsValue(ps)
            && PartsValue([p]) == match p case Plain(c) => [c] case Escape(before, c) => before + [c]
  {
    hide PartText;
    var all := [p] + ps;
    assert all[0] == p && all[1..] == ps && [p][1..] == [];
    var v := match p case Plain(c) => [c] case Escape(before, c) => before + [c];
    assert v + "" == v;
    Regroup(str, v, PartsValue(ps));
    Regroup(PartText(p), PartsText(ps), "\"");
  }

  lemma FiguresBetween(e: string, from: nat, end: nat)
    requires from <= end <= |e| && forall i :: from <= i < end ==> IsDigit(e[i])
    ensures forall c <- e[from..end] :: IsFigure(c)
  {
    forall c | c in e[from..end] ensures IsFigure(c) {
      var i :| 0 <= i < end - from && e[from..end][i] == c;
      assert IsDigit(e[from + i]);
    }
  }

  lemma NumWasRead(e: string, pos: nat) returns (d: Doc)
    requires pos < |e| && (IsDigit(e[pos]) || e[pos] == '-')
    ensures d.NumDoc? && Proper(d) && At(e, pos, DocText(d)) && Stops(e, pos + |DocText(d)|, d)
    ensures ParseAtom(e, pos) == Ok((DocValue(d), pos + |DocText(d)|))
  {
    hide Atoi, Decimals, StringRest;
    var end := RunEnd(e, pos + 1, IsDigit);
    d := if e[pos] == '-' then NumDoc(true, e[pos + 1..end]) else NumDoc(false, e[pos..end]);
    assert DocText(d) == e[pos..end];
    FiguresBetween(e, if d.minus then pos + 1 else pos, end);
    AtoiIs(d.minus, d.digits);
  }

  lemma SymWasRead(e: string, pos: nat) returns (d: Doc)
    requires pos < |e| && IsSymbolStart(e[pos])
    ensures d.SymDoc? && Proper(d) && At(e, pos, DocText(d)) && Stops(e, pos + |DocText(d)|, d)
    ensures ParseAtom(e, pos) == Ok((DocValue(d), pos + |DocText(d)|))
  {
    hide Atoi, Decimals, StringRest;
    var end := RunEnd(e, pos + 1, IsSymbolChar);
    d := SymDoc(e[pos..end]);
    forall i | 1 <= i < |d.text| ensures IsLetter(d.text[i]) || IsFigure(d.text[i]) || d.text[i] == '-' {
      assert d.text[i] == e[pos + i] && IsSymbolChar(e[pos + i]);
    }
  }

  lemma StrWasRead(e: string, pos: nat) returns (d: Doc)
    requires pos < |e| && e[pos] == '"' && ParseAtom(e, pos).Ok?
    ensures d.StrDoc? && Proper(d) && At(e, pos, DocText(d)) && Stops(e, pos + |DocText(d)|, d)
    ensures ParseAtom(e, pos) == Ok((DocValue(d), pos + |DocText(d)|))
  {
    hide StringRest, PartsText, PartsValue, At;
    var parts := PartsWereRead(e, pos + 1, "");
    d := StrDoc(parts);
    assert "" + PartsValue(parts) == PartsValue(parts);
    AtFirst(e, pos, DocText(d));
  }

  lemma BlanksWere(e: string, pos: nat)
    requires pos <= |e|
    ensures Blank(e[pos..SkipWhitespace(e, pos)]) && At(e, pos, e[pos..SkipWhitespace(e, pos)])
    ensures SkipWhitespace(e, SkipWhitespace(e, pos)) == SkipWhitespace(e, pos)
  {
    var end := SkipWhitespace(e, pos);
    forall c | c in e[pos..end] ensures c == ' ' || c == '\t' || c == '\n' {
      var i :| 0 <= i < end - pos && e[pos..end][i] == c;
      assert IsBlank(e[pos + i]);
    }
    RunEndIs(e, end, IsBlank, end);
  }

  /** What is read is a proper text, with its meaning. */
  lemma {:induction false} DocWasRead(e: string, pos: nat) returns (d: Doc)
    requires pos <= |e| && ParseAt(e, pos).Ok?
    ensures Proper(d)
    ensures var start := SkipWhitespace(e, pos);
            && At(e, start, DocText(d)) && Stops(e, start + |DocText(d)|, d)
            && ParseAt(e, pos) == Ok((DocValue(d), SkipWhitespace(e, start + |DocText(d)|)))
    decreases |e| - pos, 0
  {
    hide ParseAtom, ParseItems, RunEnd, At, DocText, DocValue, Proper, Stops;
    var start := SkipWhitespace(e, pos);
    if e[start] == '(' {
      var items, close := ItemsWereRead(e, start + 1);
      d := ListDoc(items, close);
      ListWasRead(e, start, d);
    } else {
      AtomStarts(e, start);
      if e[start] == '"' { d := StrWasRead(e, start); }
      else if IsDigit(e[start]) || e[start] == '-' { d := NumWasRead(e, start); }
      else { d := SymWasRead(e, start); }
    }
  }

  lemma AtomStarts(e: string, pos: nat)
    requires pos < |e| && e[pos] != '(' && ParseAtom(e, pos).Ok?
    ensures e[pos] == '"' || IsDigit(e[pos]) || e[pos] == '-' || IsSymbolStart(e[pos])
  {}

  lemma ListWasRead(e: string, start: nat, d: Doc)
    requires start < |e| && e[start] == '(' && d.ListDoc?
    requires Blank(d.close) && (d.items.NoItems? ==> d.close == "") && ProperItems(d.items)
    requires At(e, start + 1, ItemsText(d.items) + (d.close + ")"))
    ensures Proper(d) && At(e, start, DocText(d)) && Stops(e, start + |DocText(d)|, d)
    ensures |DocText(d)| == |ItemsText(d.items)| + |d.close| + 2 && DocValue(d) == List(ItemValues(d.items))
  {
    hide At, ItemsText, ItemValues;
    AtFirst(e, start, DocText(d));
  }

  lemma {:induction false} ItemsWereRead(e: string, pos: nat) returns (items: Items, close: string)
    requires pos <= |e| && ParseItems(e, pos).Ok?
    ensures Blank(close) && (items.NoItems? ==> close == "") && ProperItems(items)
    ensures At(e, pos, ItemsText(items) + (close + ")"))
    ensures ParseItems(e, pos) == Ok((ItemValues(items), pos + |ItemsText(items)| + |close| + 1))
    decreases |e| - pos, 1
  {
    hide ParseAt, At, DocText, DocValue, Proper, Stops, RunEnd, SkipWhitespace, Blank;
    if e[pos] == ')' {
      items, close := NoItems, "";
      EmptyWas(e, pos);
    } else {
      var d := DocWasRead(e, pos);
      var start := SkipWhitespace(e, pos);
      var end := start + |DocText(d)|;
      var next := SkipWhitespace(e, end);
      var more, last := ItemsWereRead(e, next);
      items, close := PrependItem(e, pos, d, more, last);
    }
  }

  lemma EmptyWas(e: string, pos: nat)
    requires pos < |e| && e[pos] == ')'
    ensures At(e, pos, ItemsText(NoItems) + ("" + ")")) && Blank("") && ItemsText(NoItems) == ""
  {
    assert ItemsText(NoItems) + ("" + ")") == ")";
  }

  /** Blanks before the other items, or before the closing bracket. */
  lemma PrependBlanks(after: string, more: Items, last: string) returns (rest: Items, close: string)
    requires Blank(after) && ProperItems(more) && Blank(last) && (more.NoItems? ==> last == "")
    ensures Blank(close) && ProperItems(rest) && ItemValues(rest) == ItemValues(more)
    ensures ItemsText(rest) + (close + ")") == after + (ItemsText(more) + (last + ")"))
    ensures rest.Item? <==> more.Item?
    ensures rest.Item? ==> rest.blanks == after + more.blanks && rest.doc == more.doc
  {
    hide DocText, DocValue, Proper;
    if more.NoItems? {
      rest, close := NoItems, after;
      Regroup(after, "", ")");
      assert "" + (last + ")") == ")" && "" + (close + ")") == close + ")";
    } else {
      rest, close := Item(after + more.blanks, more.doc, more.rest), last;
      BlankJoin(after, more.blanks);
      Regroup(after, more.blanks, DocText(more.doc) + ItemsText(more.rest));
      Regroup(after, ItemsText(more), last + ")");
    }
  }

  /** What stands where a text stops does not go on with it. */
  lemma NextDoesNotGoOn(e: string, end: nat, d: Doc, more: Items, last: string)
    requires Stops(e, end, d) && more.Item? && ProperItems(more) && more.blanks == ""
    requires At(e, end, ItemsText(more) + (last + ")"))
    ensures DocText(more.doc) != "" && !GoesOn(d, DocText(more.doc)[0])
  {
    hide At, DocText, Proper, GoesOn;
    DocStarts(more.doc);
    var text := DocText(more.doc) + (ItemsText(more.rest) + (last + ")"));
    assert ItemsText(more) + (last + ")") == text;
    AtChar(e, end, text, 0);
  }

  /** One more item before others that start without blanks. */
  lemma PrependItem(e: string, pos: nat, d: Doc, more: Items, last: string) returns (items: Items, close: string)
    requires pos <= |e| && Proper(d) && At(e, SkipWhitespace(e, pos), DocText(d))
    requires Stops(e, SkipWhitespace(e, pos) + |DocText(d)|, d)
    requires var end := SkipWhitespace(e, pos) + |DocText(d)|;
             end <= |e| && At(e, SkipWhitespace(e, end), ItemsText(more) + (last + ")"))
    requires ProperItems(more) && Blank(last) && (more.NoItems? ==> last == "")
    ensures items.Item? && Blank(close) && ProperItems(items) && ItemValues(items) == [DocValue(d)] + ItemValues(more)
    ensures At(e, pos, ItemsText(items) + (close + ")"))
    ensures pos + |ItemsText(items)| + |close| + 1 ==
            SkipWhitespace(e, SkipWhitespace(e, pos) + |DocText(d)|) + |ItemsText(more)| + |last| + 1
  {
    hide At, DocText, DocValue, Proper, RunEnd, SkipWhitespace, ItemsText, Stops, GoesOn, Blank;
    var start := SkipWhitespace(e, pos);
    var end := start + |DocText(d)|;
    var next := SkipWhitespace(e, end);
    BlanksWere(e, pos);
    BlanksWere(e, end);
    var before, after := e[pos..start], e[end..next];
    var rest;
    rest, close := PrependBlanks(after, more, last);
    if more.Item? && after + more.blanks == "" { NextDoesNotGoOn(e, end, d, more, last); }
    items := Item(before, d, rest);
    AtJoin(e, end, after, ItemsText(more) + (last + ")"));
    AtJoin(e, start, DocText(d), ItemsText(rest) + (close + ")"));
    AtJoin(e, pos, before, DocText(d) + (ItemsText(rest) + (close + ")")));
    ItemsSplit(items, close);
    assert |ItemsText(rest) + (close + ")")| == |after + (ItemsText(more) + (last + ")"))|;
  }

  lemma BlankJoin(a: string, b: string)
    requires Blank(a) && Blank(b)
    ensures Blank(a + b)
  {}

  lemma AtJoin(e: string, pos: nat, a: string, b: string)
    requires At(e, pos, a) && At(e, pos + |a|, b)
    ensures At(e, pos, a + b)
  {
    assert e[pos..pos + |a + b|] == e[pos..pos + |a|] + e[pos + |a|..pos + |a| + |b|];
  }

  // Whole texts

  /** before and after are the blanks around the text of d. */
  predicate Writes(e: string, before: string, d: Doc, after: string) {
    Blank(before) && Blank(after) && Proper(d) && e == before + DocText(d) + after
  }

  lemma WrittenIsParsed(e: string, before: string, d: Doc, after: string)
    requires Writes(e, before, d, after)
    ensures MakeParse(e) == Ok(DocValue(d))
  {
    hide ParseAt, DocText, DocValue, Proper, Blank, RunEnd, SkipWhitespace, GoesOn;
    var end := |before| + |DocText(d)|;
    assert e == before + (DocText(d) + after);
    assert e[0..|e|] == e && At(e, 0, before + (DocText(d) + after));
    AtParts(e, 0, before, DocText(d) + after);
    AtParts(e, |before|, DocText(d), after);
    BlankStops(e, end, d, after);
    FirstIsRead(e, 0, before, d);
    BlanksEnd(e, end, after);
  }

  lemma BlankStops(e: string, end: nat, d: Doc, after: string)
    requires Blank(after) && At(e, end, after) && end + |after| == |e|
    ensures Stops(e, end, d)
  {
    if after != "" { assert e[end] == after[0] && after[0] in after by { AtChar(e, end, after, 0); } }
  }

  lemma ParsedIsWritten(e: string) returns (before: string, d: Doc, after: string)
    requires MakeParse(e).Ok?
    ensures Writes(e, before, d, after) && MakeParse(e) == Ok(DocValue(d))
  {
    hide ParseAt, DocText, DocValue, Proper, Blank, RunEnd, SkipWhitespace, Stops;
    d := DocWasRead(e, 0);
    var start := SkipWhitespace(e, 0);
    var end := start + |DocText(d)|;
    BlanksWere(e, 0);
    BlanksWere(e, end);
    before, after := e[..start], e[end..];
    assert e[0..start] == e[..start] && e[end..|e|] == e[end..];
    assert e == e[..start] + e[start..end] + e[end..];
  }

  /** The texts that are accepted are exactly the proper ones with blanks around them,
      and each gives what it means. */
  lemma AcceptsExactly(e: string, s: Sexp)
    ensures MakeParse(e) == Ok(s) <==> exists before, d, after :: Writes(e, before, d, after) && DocValue(d) == s
  {
    hide MakeParse, DocText, DocValue, Proper;
    if MakeParse(e) == Ok(s) {
      var before, d, after := ParsedIsWritten(e);
    }
    if before, d, after :| Writes(e, before, d, after) && DocValue(d) == s {
      WrittenIsParsed(e, before, d, after);
    }
  }

  /** So the symbols that can be read are exactly those of letters, digits and
      hyphens that start with a letter or a colon. */
  lemma SymbolsAreRead(v: string)
    ensures MakeParse(v) == Ok(Sym(v)) <==>
            && v != "" && (IsLetter(v[0]) || v[0] == ':')
            && forall i :: 1 <= i < |v| ==> IsLetter(v[i]) || IsFigure(v[i]) || v[i] == '-'
    ensures forall e :: MakeParse(e) == Ok(Sym(v)) ==> MakeParse(v) == Ok(Sym(v))
  {
    if Proper(SymDoc(v)) {
      assert Writes(v, "", SymDoc(v), "");
      WrittenIsParsed(v, "", SymDoc(v), "");
    }
    forall e | MakeParse(e) == Ok(Sym(v)) ensures Proper(SymDoc(v)) {
      var before, d, after := ParsedIsWritten(e);
      assert d == SymDoc(v);
    }
  }

  // What is printed

  function PrintedParts(v: string): seq<Part> {
    if v == "" then []
    else [if v[0] == '"' || v[0] == '\\' then Escape("", v[0]) else Plain(v[0])] + PrintedParts(v[1..])
  }

  /** An s-expression as printed: one blank between items and no other, and a
      backslash before just the quotes and backslashes of a string. */
  function Printed(s: Sexp): Doc {
    match s
    case Empty => SymDoc("")
    case List(items) => ListDoc(PrintedItems(items, ""), "")
    case Str(v) => StrDoc(PrintedParts(v))
    case Num(v) => if v != "" && v[0] == '-' then NumDoc(true, v[1..]) else NumDoc(false, v)
    case Sym(v) => SymDoc(v)
  }

  function PrintedItems(items: seq<Sexp>, blanks: string): Items {
    if items == [] then NoItems else Item(blanks, Printed(items[0]), PrintedItems(items[1..], " "))
  }

  lemma {:induction false} PrintedPartsAre(v: string)
    ensures Escaped(v) == PartsText(PrintedParts(v))
  {
    if v != "" { PrintedPartsAre(v[1..]); }
  }

  /** The text of an s-expression is that of the document. */
  lemma {:induction false} TextIsPrinted(s: Sexp)
    ensures Text(s) == DocText(Printed(s))
    decreases s, 1
  {
    match s
    case List(items) =>
      TextsArePrinted(items);
      assert Texts(items) + ("" + ")") == Texts(items) + ")";
      assert "(" + Texts(items) + ")" == "(" + (Texts(items) + ")");
    case Str(v) => PrintedPartsAre(v);
    case _ =>
  }

  lemma {:induction false} TextsArePrinted(items: seq<Sexp>)
    ensures Texts(items) == ItemsText(PrintedItems(items, ""))
    ensures items != [] ==> " " + Texts(items) == ItemsText(PrintedItems(items, " "))
    decreases items, 0
  {
    if items != [] {
      TextIsPrinted(items[0]);
      TextsArePrinted(items[1..]);
      var t := DocText(Printed(items[0]));
      if |items| == 1 {
        assert "" + (t + "") == t && " " + (t + "") == " " + t;
      } else {
        assert t + " " + Texts(items[1..]) == t + (" " + Texts(items[1..]));
      }
    }
  }
}
