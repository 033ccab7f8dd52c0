/** What the warnings of the query parser say, and where it stops. */
module QueryWarnings {
  import opened QueryTree
  import opened QueryLeaf
  import opened Tokenizer
  import opened Grammar

  /** No token is empty; the tokenizer gives no such token. */
  ghost predicate NoneEmpty(ts: seq<Token>) { forall t <- ts :: !t.kind.Empty? }

  /** A token that can be no operand. */
  predicate NoOperand(k: Kind) { k.And? || k.Or? || k.Xor? || k.Close? }

  /** What a warning says of the tokens: a word is wrong; an operand is missing at
      the end; an operator or a closing bracket stands where an operand should; an
      opening bracket is not closed.  The two other warnings are never given. */
  ghost predicate Says(sc: Schema, ts: seq<Token>, w: Warning)
    requires sc.Valid()
  {
    match w.problem
    case ExpectedUnit => w.pos == 0
    case ExpectedValue => exists t <- ts :: t.pos == w.pos && NoOperand(t.kind)
    case ExpectedClose => exists t <- ts :: t.pos == w.pos && t.kind.Open?
    case NotClose(_) => false
    case ExpectedOrXor => false
    case _ => exists t <- ts :: (t.kind.Data? || NoOperand(t.kind)) && w in DataLeaf(sc, t.str, t.pos).warnings
  }

  ghost predicate AllSay(sc: Schema, ts: seq<Token>, ws: seq<Warning>)
    requires sc.Valid()
  {
    forall w <- ws :: Says(sc, ts, w)
  }

  /** rest is what is left of ts at its end. */
  predicate Left(ts: seq<Token>, rest: seq<Token>) { |rest| <= |ts| && rest == ts[|ts| - |rest|..] }

  /** After what can be said of the tokens left, and of the first. */
  lemma SayOn(sc: Schema, ts: seq<Token>, rest: seq<Token>, ws: seq<Warning>)
    requires sc.Valid() && Left(ts, rest) && AllSay(sc, rest, ws)
    ensures AllSay(sc, ts, ws)
  {
    hide DataLeaf;
    assert forall t <- rest :: t in ts;
  }

  lemma LeftOn(ts: seq<Token>, rest: seq<Token>, more: seq<Token>)
    requires Left(ts, rest) && Left(rest, more)
    ensures Left(ts, more) && (NoneEmpty(ts) ==> NoneEmpty(more))
  {
    assert rest[|rest| - |more|..] == ts[|ts| - |rest|..][|rest| - |more|..];
  }

  /** A rule's result: it stops where it must, and its warnings say what is so. */
  ghost predicate Sound(sc: Schema, ts: seq<Token>, r: Parsed)
    requires sc.Valid()
  {
    Left(ts, r.rest) && AllSay(sc, ts, r.warnings)
  }

  lemma SoundOn(sc: Schema, ts: seq<Token>, us: seq<Token>, r: Parsed)
    requires sc.Valid() && Left(ts, us) && Sound(sc, us, r)
    ensures Sound(sc, ts, r)
  {
    hide Says, Left;
    LeftOn(ts, us, r.rest);
    SayOn(sc, ts, us, r.warnings);
  }

  lemma TailLeft(ts: seq<Token>)
    requires ts != []
    ensures Left(ts, ts[1..]) && (NoneEmpty(ts) ==> NoneEmpty(ts[1..]))
  {}

  lemma DataSound(sc: Schema, ts: seq<Token>)
    requires sc.Valid() && ts != [] && (ts[0].kind.Data? || NoOperand(ts[0].kind))
    ensures Sound(sc, ts, DataRule(sc, ts))
  {
    hide DataLeaf;
    var leaf := DataLeaf(sc, ts[0].str, ts[0].pos);
    forall w | w in DataRule(sc, ts).warnings ensures Says(sc, ts, w) {
      assert ts[0] in ts;
    }
  }

  lemma {:induction false} UnitSound(sc: Schema, ts: seq<Token>)
    requires sc.Valid() && NoneEmpty(ts)
    ensures Sound(sc, ts, Unit(sc, ts))
    decreases |ts|, 1
  {
    hide Says, DataRule, Factor1, WellFormed, Left;
    if ts == [] {
      NothingSound(sc);
    } else if ts[0].kind.Not? {
      TailLeft(ts);
      UnitSound(sc, ts[1..]);
      SoundOn(sc, ts, ts[1..], Unit(sc, ts[1..]));
    } else if ts[0].kind.Open? {
      TailLeft(ts);
      TermSound(sc, ts[1..]);
      var r := Term1(sc, ts[1..]);
      SoundOn(sc, ts, ts[1..], r);
      Unclosed(sc, ts, ts[0]);
      if r.rest != [] {
        TailLeft(r.rest);
        LeftOn(ts, r.rest, r.rest[1..]);
      }
    } else {
      assert ts[0] in ts;
      DataSound(sc, ts);
    }
  }

  lemma NothingSound(sc: Schema)
    requires sc.Valid()
    ensures Sound(sc, [], Unit(sc, []))
  {}

  lemma Unclosed(sc: Schema, ts: seq<Token>, t: Token)
    requires sc.Valid() && t in ts && t.kind.Open?
    ensures Says(sc, ts, Warning(t.pos, ExpectedClose))
  {}

  /** Where a factor stops. */
  lemma {:induction false} FactorSound(sc: Schema, ts: seq<Token>)
    requires sc.Valid() && NoneEmpty(ts)
    ensures Sound(sc, ts, Factor1(sc, ts)) && NoneEmpty(Factor1(sc, ts).rest)
    ensures var rest := Factor1(sc, ts).rest;
            rest != [] ==> rest[0].kind.Close? || rest[0].kind.Or? || rest[0].kind.Xor?
    decreases |ts|, 2
  {
    hide Says, Unit, WellFormed, Left, Join;
    UnitSound(sc, ts);
    var us := Unit(sc, ts).rest;
    LeftOn(ts, us, us) by { LeftAll(us); }
    var r := Factor2(sc, us).1;
    if us == [] || us[0].kind.Close? || us[0].kind.Or? || us[0].kind.Xor? {
      LeftAll(us);
    } else {
      assert us[0] in us;
      TailLeft(us);
      var vs := if us[0].kind.And? then us[1..] else us;
      LeftAll(us);
      FactorSound(sc, vs);
      SoundOn(sc, us, vs, r);
      SoundOn(sc, ts, us, r);
    }
  }

  lemma LeftAll(ts: seq<Token>)
    ensures Left(ts, ts)
  {}

  /** Where a term stops. */
  lemma {:induction false} TermSound(sc: Schema, ts: seq<Token>)
    requires sc.Valid() && NoneEmpty(ts)
    ensures Sound(sc, ts, Term1(sc, ts)) && NoneEmpty(Term1(sc, ts).rest)
    ensures Term1(sc, ts).rest != [] ==> Term1(sc, ts).rest[0].kind.Close?
    decreases |ts|, 4
  {
    hide Says, Factor1, WellFormed, Left, Join;
    FactorSound(sc, ts);
    var us := Factor1(sc, ts).rest;
    LeftAll(us);
    if us != [] && (us[0].kind.Or? || us[0].kind.Xor?) {
      TailLeft(us);
      TermSound(sc, us[1..]);
      SoundOn(sc, us, us[1..], Term1(sc, us[1..]));
      SoundOn(sc, ts, us, Term1(sc, us[1..]));
    }
  }

  lemma {:induction false} TokensAreNotEmpty(food: string, pos: nat)
    ensures NoneEmpty(TokensOf(food, pos))
    decreases |food|
  {
    if food != "" {
      var b := Eat(food, pos, false, false, "");
      TokensAreNotEmpty(b.food, b.token.pos);
    }
  }

  /** The parser stops at the end or at a closing bracket that none opens, and each
      of its warnings says what is so. */
  lemma WarningsAreTrue(sc: Schema, text: string)
    requires sc.Valid()
    ensures var ts := TokensOf(text, 0);
            var r := Parse(sc, ts);
            && (forall w <- r.warnings :: Says(sc, ts, w))
            && r.rest == ts[|ts| - |r.rest|..] && (r.rest != [] ==> r.rest[0].kind.Close?)
  {
    hide Says, Term1;
    TokensAreNotEmpty(text, 0);
    TermSound(sc, TokensOf(text, 0));
  }
}
