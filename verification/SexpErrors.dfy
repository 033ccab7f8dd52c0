/** What the parser says of texts that are no s-expressions. */
module SexpErrors {
  import opened Wrappers
  import opened Sexps
  import opened SexpGrammar

  /** c can be the first character of an s-expression. */
  predicate Starts(c: char) { c == '(' || c == '"' || c == '-' || c == ':' || IsLetter(c) || IsFigure(c) }

  /** Only blanks are left where an s-expression should be: at pos, or behind a
      bracket. */
  ghost predicate OnlyBlanksLeft(e: string, pos: nat) {
    exists b :: pos <= b <= |e| && Blank(e[b..]) && (b == pos || e[b - 1] == '(')
  }

  /** What an error says of the text from pos on. */
  ghost predicate Blames(e: string, pos: nat, err: Error) {
    && pos <= err.pos <= |e|
    && match err.problem
       case Unexpected => err.pos < |e| && !Starts(e[err.pos])
       case ExpectedCharacter => err.pos == |e| && OnlyBlanksLeft(e, pos)
       case ExpectedClose => err.pos == |e| && '(' in e
       case Unterminated(_) => err.pos == |e| && '"' in e[pos..]
       case Trailing => false
  }

  lemma {:induction false} StringBlames(e: string, pos: nat, escape: bool, str: string)
    requires pos <= |e| && StringRest(e, pos, escape, str).Err?
    ensures var err := StringRest(e, pos, escape, str).error; err.pos == |e| && err.problem.Unterminated?
    decreases |e| - pos
  {
    if pos < |e| {
      if escape && (e[pos] == '"' || e[pos] == '\\') {
        StringBlames(e, pos + 1, false, str + [e[pos]]);
      } else if e[pos] == '\\' {
        StringBlames(e, pos + 1, true, str);
      } else if e[pos] != '"' {
        StringBlames(e, pos + 1, escape, str + [e[pos]]);
      }
    }
  }

  lemma AtomBlames(e: string, pos: nat)
    requires pos < |e| && e[pos] != '(' && ParseAtom(e, pos).Err?
    ensures Blames(e, pos, ParseAtom(e, pos).error) && !ParseAtom(e, pos).error.problem.ExpectedCharacter?
  {
    hide StringRest;
    if e[pos] == '"' {
      StringBlames(e, pos + 1, false, "");
      assert e[pos..][0] == '"';
    }
  }

  /** An error further on is one of the text before, too. */
  lemma BlamesFrom(e: string, pos: nat, more: nat, err: Error)
    requires pos <= more && Blames(e, more, err)
    requires err.problem.ExpectedCharacter? ==> OnlyBlanksLeft(e, pos)
    ensures Blames(e, pos, err)
  {
    if err.problem.Unterminated? { assert e[more..] == e[pos..][more - pos..]; }
  }

  lemma BlanksLeft(e: string, pos: nat, more: nat)
    requires pos < more && OnlyBlanksLeft(e, more) && (e[more - 1] == '(' || (more < |e| && !IsBlank(e[more])))
    ensures OnlyBlanksLeft(e, pos)
  {
    var b :| more <= b <= |e| && Blank(e[b..]) && (b == more || e[b - 1] == '(');
    if b == more && more < |e| { assert e[b..][0] == e[more] && e[b..][0] in e[b..]; }
  }

  lemma NoBlankFollows(e: string, pos: nat)
    requires pos <= |e| && ParseAt(e, pos).Ok?
    ensures var end := ParseAt(e, pos).value.1; end < |e| ==> !IsBlank(e[end])
  {
    hide ParseAtom, ParseList, IsBlank;
  }

  lemma {:induction false} ErrorsBlame(e: string, pos: nat)
    requires pos <= |e| && ParseAt(e, pos).Err?
    ensures Blames(e, pos, ParseAt(e, pos).error) && !ParseAt(e, pos).error.problem.Trailing?
    decreases |e| - pos, 0
  {
    hide ParseAtom, ParseItems, StringRest, IsBlank;
    var start := SkipWhitespace(e, pos);
    if start == |e| {
      BlanksWere(e, pos);
      assert e[pos..] == e[pos..start];
    } else if e[start] == '(' {
      ItemsBlame(e, start + 1);
      var err := ParseItems(e, start + 1).error;
      if err.problem.ExpectedCharacter? { BlanksLeft(e, pos, start + 1); }
      BlamesFrom(e, pos, start + 1, err);
    } else {
      AtomBlames(e, start);
      BlamesFrom(e, pos, start, ParseAtom(e, start).error);
    }
  }

  lemma {:induction false} ItemsBlame(e: string, pos: nat)
    requires 0 < pos <= |e| && ParseItems(e, pos).Err?
    requires '(' in e && (e[pos - 1] == '(' || (pos < |e| ==> !IsBlank(e[pos])))
    ensures Blames(e, pos, ParseItems(e, pos).error)
    decreases |e| - pos, 1
  {
    hide ParseAt, StringRest;
    if pos < |e| {
      var r := ParseAt(e, pos);
      if r.Err? {
        ErrorsBlame(e, pos);
      } else {
        NoBlankFollows(e, pos);
        ItemsBlame(e, r.value.1);
        var err := ParseItems(e, r.value.1).error;
        if err.problem.ExpectedCharacter? { BlanksLeft(e, pos, r.value.1); }
        BlamesFrom(e, pos, r.value.1, err);
      }
    }
  }

  /** What the parser says of a text that it does not accept: that it has a character
      no s-expression starts with, ends in a string or in a list, has nothing but
      blanks where an s-expression should be, or goes on behind a whole one. */
  lemma ErrorsTell(e: string)
    requires MakeParse(e).Err?
    ensures var err := MakeParse(e).error;
            if err.problem.Trailing? then err.pos < |e| && MakeParse(e[..err.pos]).Ok?
            else Blames(e, 0, err)
  {
    hide ParseAt, Blames, DocText, Proper, Stops;
    if ParseAt(e, 0).Err? {
      ErrorsBlame(e, 0);
    } else {
      var p := ParseAt(e, 0).value.1;
      var d := DocWasRead(e, 0);
      var start := SkipWhitespace(e, 0);
      var end := start + |DocText(d)|;
      BlanksWere(e, 0);
      BlanksWere(e, end);
      assert e[..p] == e[0..start] + e[start..end] + e[end..p];
      assert Writes(e[..p], e[0..start], d, e[end..p]);
      WrittenIsParsed(e[..p], e[0..start], d, e[end..p]);
    }
  }
}
