// The loader for user netgroup lines of the GASH netgroup file
// (UserNetgroup.loadLine): a line is a netgroup name followed by entries,
// each either a user triple "(host,user,domain)" or the name of a
// sub-netgroup; system netgroups, whose names end in "-s", are skipped.
// The StreamTokenizer is modelled at the level of its tokens: with the
// syntax initTokenizer sets, every character but blank, tab and newline is
// a word character, so a token is a word, an end of line or the end of
// the file.
module UserNetgroups {
  import opened Wrappers
  import opened JavaLang

  datatype Token = Word(sval: string) | EndOfLine | EndOfInput

  predicate AtEnd(t: Token) {
    t == EndOfLine || t == EndOfInput
  }

  /** The tokenizer's current token and the tokens still to be read. */
  datatype Scan = Scan(ttype: Token, rest: seq<Token>)

  /** nextToken: the next token, or the end of the file for good once there. */
  function Advance(rest: seq<Token>): (r: Scan)
    ensures rest == [] || rest[0] == EndOfInput ==> r == Scan(EndOfInput, rest)
    ensures rest != [] && rest[0] != EndOfInput ==> r == Scan(rest[0], rest[1..])
  {
    if rest == [] || rest[0] == EndOfInput then Scan(EndOfInput, rest) else Scan(rest[0], rest[1..])
  }

  /** getNextBit: the word read, or "" at the end of a line or of the file. */
  function Bit(t: Token): (b: string)
    ensures t.Word? ==> b == t.sval
    ensures AtEnd(t) ==> b == ""
  {
    if t.Word? then t.sval else ""
  }

  /** Read tokens until the end of the line or of the file. */
  function SkipToEnd(sc: Scan): (r: Scan)
    ensures AtEnd(r.ttype) && |r.rest| <= |sc.rest|
    ensures AtEnd(sc.ttype) ==> r == sc
    decreases |sc.rest|, !AtEnd(sc.ttype)
  {
    if AtEnd(sc.ttype) then sc else SkipToEnd(Advance(sc.rest))
  }

  /** An entry on a netgroup line. */
  datatype Entry = UserEntry(user: string) | SubNetgroup(name: string)

  /**
   * A word with no '(' names a sub-netgroup; otherwise it is a user entry,
   * the text between its first and its last ','.  A user entry with fewer
   * than two commas is a StringIndexOutOfBoundsException.
   */
  function Classify(w: string): (r: Outcome<Entry>)
    ensures '(' !in w ==> r == Returned(SubNetgroup(w))
    ensures '(' in w && r.Returned? ==> r.value.UserEntry?
  {
    if IndexOf(w, '(') == -1 then Returned(SubNetgroup(w))
    else
      var user :- Substring(w, IndexOf(w, ',') + 1, LastIndexOf(w, ','));
      Returned(UserEntry(user))
  }

  /**
   * A user triple yields exactly its middle part: the text between a first
   * comma at i and a last comma at j.
   */
  lemma ClassifyUser(w: string, i: int, j: int)
    requires '(' in w
    requires 0 <= i < j < |w| && w[i] == ',' && w[j] == ','
    requires ',' !in w[..i] && ',' !in w[j + 1..]
    ensures Classify(w) == Returned(UserEntry(w[i + 1..j]))
  {
  }

  /** A user entry throws exactly when its first comma is also its last (or it has none). */
  lemma ClassifyThrowsIff(w: string)
    ensures Classify(w).Threw? <==> '(' in w && IndexOf(w, ',') == LastIndexOf(w, ',')
    ensures Classify(w).Threw? ==> Classify(w).exc == StringIndexOutOfBounds
  {
    if '(' in w && IndexOf(w, ',') != -1 && IndexOf(w, ',') != LastIndexOf(w, ',') {
      assert IndexOf(w, ',') < LastIndexOf(w, ',') by {
        var i := IndexOf(w, ',');
        var j := LastIndexOf(w, ',');
        assert w[j] == ',';
      }
    }
  }

  /** What the entry loop has produced: the tokenizer, the lists, and an exception if one stopped it. */
  datatype Parsed = Parsed(sc: Scan, users: seq<string>, subs: seq<string>, failed: Option<Exception>)

  /**
   * The entry loop as evidently intended: read the next token; a word is
   * classified and added, and the loop stops at the end of the line.
   */
  function EntryLoop(sc: Scan, users: seq<string>, subs: seq<string>): (p: Parsed)
    ensures p.failed.None? ==> AtEnd(p.sc.ttype)
    decreases |sc.rest|, !AtEnd(sc.ttype)
  {
    if AtEnd(sc.ttype) then Parsed(sc, users, subs, None)
    else
      var next := Advance(sc.rest);
      if !next.ttype.Word? then EntryLoop(next, users, subs)
      else
        match Classify(next.ttype.sval)
        case Threw(e) => Parsed(next, users, subs, Some(e))
        case Returned(UserEntry(u)) => EntryLoop(next, users + [u], subs)
        case Returned(SubNetgroup(n)) => EntryLoop(next, users, subs + [n])
  }

  /** How the loop over system netgroups ends: at the end of the file, or at a line to load. */
  datatype Skipped = StoppedAtEof(name: string, sc: Scan) | Reached(name: string, sc: Scan)

  /** Skip every line whose netgroup name ends in "-s". */
  function SkipSystem(name: string, sc: Scan): (r: Skipped)
    ensures r.Reached? ==> !EndsWith(r.name, "-s")
    decreases |sc.rest| + (if EndsWith(name, "-s") then 1 else 0)
  {
    if !EndsWith(name, "-s") then Reached(name, sc)
    else
      var e := SkipToEnd(sc);
      if e.ttype == EndOfInput then StoppedAtEof(name, e)
      else
        var b := Advance(e.rest);
        assert b.ttype == EndOfInput ==> !EndsWith(Bit(b.ttype), "-s");
        SkipSystem(Bit(b.ttype), b)
  }

  /** The netgroup's fields: its name (None for null) and the two lists. */
  datatype Fields = Fields(name: Option<string>, users: seq<string>, subs: seq<string>)

  /** What loadLine leaves behind: the fields, the tokenizer and its answer. */
  datatype Line = Line(fields: Fields, sc: Scan, result: Outcome<bool>)

  /**
   * loadLine, with the entry loop as evidently intended: true at once at
   * the end of the file; false when the file ends while skipping system
   * netgroups; otherwise the entries of the line are added and the answer
   * is whether the tokenizer reached the end of the file.
   */
  function Load(rest: seq<Token>, f: Fields): Line {
    var first := Advance(rest);
    if first.ttype == EndOfInput then Line(f, first, Returned(true))
    else
      var start := Advance([first.ttype] + first.rest);
      match SkipSystem(Bit(start.ttype), start)
      case StoppedAtEof(n, e) => Line(f.(name := Some(n)), e, Returned(false))
      case Reached(n, g) =>
        var p := EntryLoop(g, f.users, f.subs);
        var fields := Fields(Some(n), p.users, p.subs);
        if p.failed.Some? then Line(fields, p.sc, Threw(p.failed.value))
        else
          var e := SkipToEnd(p.sc);
          Line(fields, e, Returned(e.ttype == EndOfInput))
  }

  /** Every token a word: the body of one line. */
  predicate Words(ws: seq<Token>) {
    forall i :: 0 <= i < |ws| ==> ws[i].Word?
  }

  /** Every word of the line is a well-formed entry. */
  predicate WellFormed(ws: seq<Token>) {
    Words(ws) && forall i :: 0 <= i < |ws| ==> Classify(ws[i].sval).Returned?
  }

  /** The users the words name, in order. */
  function UsersOf(ws: seq<Token>): seq<string>
    requires WellFormed(ws)
  {
    if ws == [] then []
    else
      var e := Classify(ws[0].sval).value;
      (if e.UserEntry? then [e.user] else []) + UsersOf(ws[1..])
  }

  /** The sub-netgroups the words name, in order. */
  function SubsOf(ws: seq<Token>): seq<string>
    requires WellFormed(ws)
  {
    if ws == [] then []
    else
      var e := Classify(ws[0].sval).value;
      (if e.SubNetgroup? then [e.name] else []) + SubsOf(ws[1..])
  }

  /** The entry loop over a well-formed line adds its users and sub-netgroups and stops at its end. */
  lemma {:induction false} EntryLoopLine(t: Token, ws: seq<Token>, more: seq<Token>, users: seq<string>, subs: seq<string>)
    requires t.Word? && WellFormed(ws)
    ensures EntryLoop(Scan(t, ws + [EndOfLine] + more), users, subs) ==
      Parsed(Scan(EndOfLine, more), users + UsersOf(ws), subs + SubsOf(ws), None)
    decreases |ws|
  {
    var s := ws + [EndOfLine] + more;
    if ws == [] {
      assert s[0] == EndOfLine && s[1..] == more;
      assert users + UsersOf(ws) == users && subs + SubsOf(ws) == subs;
    } else {
      var rest := ws[1..] + [EndOfLine] + more;
      WellFormedTail(ws);
      var e := Classify(ws[0].sval).value;
      var us := if e.UserEntry? then [e.user] else [];
      var ns := if e.SubNetgroup? then [e.name] else [];
      assert EntryLoop(Scan(t, s), users, subs) == EntryLoop(Scan(ws[0], rest), users + us, subs + ns) by {
        assert s == [ws[0]] + rest;
        EntryLoopStep(t, ws[0], rest, users, subs);
      }
      EntryLoopLine(ws[0], ws[1..], more, users + us, subs + ns);
      assert UsersOf(ws) == us + UsersOf(ws[1..]);
      assert SubsOf(ws) == ns + SubsOf(ws[1..]);
      Associative(users, us, UsersOf(ws[1..]));
      Associative(subs, ns, SubsOf(ws[1..]));
    }
  }

  lemma Associative<T>(a: seq<T>, b: seq<T>, c: seq<T>)
    ensures a + b + c == a + (b + c)
  {
  }

  lemma WellFormedTail(ws: seq<Token>)
    requires WellFormed(ws) && ws != []
    ensures WellFormed(ws[1..]) && ws[0].Word? && Classify(ws[0].sval).Returned?
  {
    forall i | 0 <= i < |ws[1..]|
      ensures ws[1..][i] == ws[i + 1]
    {
    }
  }

  /** One pass of the entry loop over a well-formed word. */
  lemma EntryLoopStep(t: Token, w: Token, rest: seq<Token>, users: seq<string>, subs: seq<string>)
    requires t.Word? && w.Word? && Classify(w.sval).Returned?
    ensures var e := Classify(w.sval).value;
      EntryLoop(Scan(t, [w] + rest), users, subs) ==
        EntryLoop(Scan(w, rest), users + (if e.UserEntry? then [e.user] else []),
                  subs + (if e.SubNetgroup? then [e.name] else []))
  {
    assert ([w] + rest)[0] == w && ([w] + rest)[1..] == rest;
    assert users + [] == users && subs + [] == subs;
  }

  /** An empty file: true, and nothing read into the netgroup. */
  lemma LoadAtEof(rest: seq<Token>, f: Fields)
    requires rest == [] || rest[0] == EndOfInput
    ensures Load(rest, f) == Line(f, Scan(EndOfInput, rest), Returned(true))
  {
  }

  /** A user netgroup line: its name and entries are loaded, the next line is left unread, and the answer is false. */
  lemma LoadUserLine(name: string, ws: seq<Token>, more: seq<Token>, f: Fields)
    requires !EndsWith(name, "-s") && WellFormed(ws)
    ensures Load([Word(name)] + ws + [EndOfLine] + more, f) ==
      Line(Fields(Some(name), f.users + UsersOf(ws), f.subs + SubsOf(ws)), Scan(EndOfLine, more), Returned(false))
  {
    var s := [Word(name)] + ws + [EndOfLine] + more;
    assert s[0] == Word(name) && s[1..] == ws + [EndOfLine] + more;
    assert [s[0]] + s[1..] == s;
    var start := Scan(Word(name), s[1..]);
    assert Advance(s) == start;
    assert SkipSystem(Bit(start.ttype), start) == Reached(name, start);
    EntryLoopLine(Word(name), ws, more, f.users, f.subs);
    assert EntryLoop(start, f.users, f.subs) ==
      Parsed(Scan(EndOfLine, more), f.users + UsersOf(ws), f.subs + SubsOf(ws), None);
  }

  /** A system netgroup line is passed over: loading it and the next line is loading the next line. */
  lemma LoadSkipsSystemLine(name: string, ws: seq<Token>, more: seq<Token>, f: Fields)
    requires EndsWith(name, "-s") && Words(ws)
    requires more != [] && more[0] != EndOfInput
    ensures Load([Word(name)] + ws + [EndOfLine] + more, f) == Load(more, f)
  {
    var s := [Word(name)] + ws + [EndOfLine] + more;
    assert s[0] == Word(name) && s[1..] == ws + [EndOfLine] + more;
    assert [s[0]] + s[1..] == s;
    var start := Scan(Word(name), s[1..]);
    assert Advance(s) == start;
    assert s[1..] == ws + ([EndOfLine] + more);
    SkipWords(Word(name), ws, [EndOfLine] + more);
    assert ([EndOfLine] + more)[0] == EndOfLine && ([EndOfLine] + more)[1..] == more;
    assert SkipToEnd(start) == Scan(EndOfLine, more);
    var b := Advance(more);
    assert SkipSystem(name, start) == SkipSystem(Bit(b.ttype), b);
    assert [more[0]] + more[1..] == more;
    assert Advance(more) == b && Advance([b.ttype] + b.rest) == b;
  }

  /** Skipping to the end of a line passes over its words. */
  lemma {:induction false} SkipWords(t: Token, ws: seq<Token>, more: seq<Token>)
    requires t.Word? && Words(ws)
    ensures SkipToEnd(Scan(t, ws + more)) == SkipToEnd(Advance(more))
    decreases |ws|
  {
    if ws == [] {
      assert ws + more == more;
    } else {
      assert (ws + more)[0] == ws[0] && (ws + more)[1..] == ws[1..] + more;
      assert Words(ws[1..]) by {
        forall i | 0 <= i < |ws[1..]|
          ensures ws[1..][i].Word?
        {
          assert ws[1..][i] == ws[i + 1];
        }
      }
      SkipWords(ws[0], ws[1..], more);
    }
  }

  /** A last line naming a system netgroup: the file ends while skipping it, and the answer is false. */
  lemma LoadSystemLineAtEof(name: string, ws: seq<Token>, f: Fields)
    requires EndsWith(name, "-s") && Words(ws)
    ensures Load([Word(name)] + ws, f).result == Returned(false)
  {
    var s := [Word(name)] + ws;
    assert s[0] == Word(name) && s[1..] == ws;
    assert [s[0]] + s[1..] == s;
    var start := Scan(Word(name), ws);
    assert Advance(s) == start;
    assert ws + [] == ws;
    SkipWords(Word(name), ws, []);
    assert SkipToEnd(start) == Scan(EndOfInput, []);
  }

  /** A StreamTokenizer over a list of tokens; pushBack returns the current token to the front. */
  class Tokenizer {
    var ttype: Token
    var rest: seq<Token>

    constructor(input: seq<Token>)
      ensures rest == input
    {
      rest := input;
    }

    method NextToken()
      modifies this
      ensures Scan(ttype, rest) == Advance(old(rest))
    {
      if rest == [] || rest[0] == EndOfInput {
        ttype := EndOfInput;
      } else {
        ttype := rest[0];
        rest := rest[1..];
      }
    }

    method PushBack()
      modifies this
      ensures ttype == old(ttype) && rest == [old(ttype)] + old(rest)
    {
      rest := [ttype] + rest;
    }
  }

  /** A user netgroup being loaded. */
  class Netgroup {
    var name: Option<string>
    var users: seq<string>
    var subnetgroups: seq<string>

    constructor()
      ensures name.None? && users == [] && subnetgroups == []
    {
      name := None;
      users := [];
      subnetgroups := [];
    }

    method GetNextBit(tokens: Tokenizer) returns (b: string)
      modifies tokens
      ensures Scan(tokens.ttype, tokens.rest) == Advance(old(tokens.rest))
      ensures b == Bit(tokens.ttype)
    {
      tokens.NextToken();
      if AtEnd(tokens.ttype) {
        return "";
      }
      b := tokens.ttype.sval;
    }

    method SkipLine(tokens: Tokenizer)
      modifies tokens
      ensures Scan(tokens.ttype, tokens.rest) == SkipToEnd(old(Scan(tokens.ttype, tokens.rest)))
    {
      while !AtEnd(tokens.ttype)
        invariant SkipToEnd(Scan(tokens.ttype, tokens.rest)) == SkipToEnd(old(Scan(tokens.ttype, tokens.rest)))
        decreases |tokens.rest|, !AtEnd(tokens.ttype)
      {
        tokens.NextToken();
      }
    }

    /**
     * One pass of loadLine's entry loop as written: the current token is
     * classified and added, but the loop body never reads another token.
     */
    method EntryStepAsWritten(tokens: Tokenizer) returns (r: Outcome<Entry>)
      requires !AtEnd(tokens.ttype)
      modifies this
      ensures r == Classify(tokens.ttype.sval)
      ensures r.Returned? && r.value.UserEntry? ==> users == old(users) + [r.value.user]
      ensures !(r.Returned? && r.value.UserEntry?) ==> users == old(users)
      ensures r.Returned? && r.value.SubNetgroup? ==> subnetgroups == old(subnetgroups) + [r.value.name]
      ensures !(r.Returned? && r.value.SubNetgroup?) ==> subnetgroups == old(subnetgroups)
      ensures name == old(name)
    {
      var w := tokens.ttype.sval;
      if IndexOf(w, '(') == -1 {
        subnetgroups := subnetgroups + [w];
        return Returned(SubNetgroup(w));
      }
      var user := Substring(w, IndexOf(w, ',') + 1, LastIndexOf(w, ','));
      if user.Threw? {
        return Threw(user.exc);
      }
      users := users + [user.value];
      r := Returned(UserEntry(user.value));
    }

    /** loadLine, with the entry loop reading the next token on each pass. */
    method LoadLine(tokens: Tokenizer) returns (r: Outcome<bool>)
      modifies this, tokens
      ensures Line(Fields(name, users, subnetgroups), Scan(tokens.ttype, tokens.rest), r) ==
        Load(old(tokens.rest), Fields(old(name), old(users), old(subnetgroups)))
    {
      ghost var f := Fields(name, users, subnetgroups);
      ghost var rest0 := tokens.rest;
      tokens.NextToken();
      if tokens.ttype == EndOfInput {
        return Returned(true);
      }
      tokens.PushBack();
      var bit := GetNextBit(tokens);
      name := Some(bit);
      ghost var skipped := SkipSystem(bit, Scan(tokens.ttype, tokens.rest));
      while EndsWith(name.value, "-s")
        invariant name.Some?
        invariant users == f.users && subnetgroups == f.subs
        invariant SkipSystem(name.value, Scan(tokens.ttype, tokens.rest)) == skipped
        decreases |tokens.rest| + (if EndsWith(name.value, "-s") then 1 else 0)
      {
        SkipLine(tokens);
        if tokens.ttype == EndOfInput {
          return Returned(false);
        }
        bit := GetNextBit(tokens);
        assert tokens.ttype == EndOfInput ==> !EndsWith(bit, "-s");
        name := Some(bit);
      }
      ghost var parsed := EntryLoop(Scan(tokens.ttype, tokens.rest), users, subnetgroups);
      while !AtEnd(tokens.ttype)
        invariant EntryLoop(Scan(tokens.ttype, tokens.rest), users, subnetgroups) == parsed
        invariant name == Some(skipped.name)
        decreases |tokens.rest|, !AtEnd(tokens.ttype)
      {
        tokens.NextToken();
        if tokens.ttype.Word? {
          var w := tokens.ttype.sval;
          if IndexOf(w, '(') == -1 {
            subnetgroups := subnetgroups + [w];
          } else {
            var user := Substring(w, IndexOf(w, ',') + 1, LastIndexOf(w, ','));
            if user.Threw? {
              return Threw(user.exc);
            }
            users := users + [user.value];
          }
        }
      }
      SkipLine(tokens);
      r := Returned(tokens.ttype == EndOfInput);
    }
  }

  /**
   * The entry loop as written, on any line "name entries...", say
   * "staff (host,alice,dom)": after the name is read, each pass adds the
   * name itself as a sub-netgroup again and leaves the tokenizer where it
   * was, so the loop condition never changes.
   */
  method EntryLoopNeverAdvances(name: string, entries: seq<Token>) returns (subs: seq<string>, pending: seq<Token>)
    requires name != [] && '(' !in name
    ensures subs == [name, name, name] && pending == entries + [EndOfLine]
  {
    var input := [Word(name)] + entries + [EndOfLine];
    var tokens := new Tokenizer(input);
    var group := new Netgroup();
    tokens.NextToken();
    tokens.PushBack();
    var bit := group.GetNextBit(tokens);
    group.name := Some(bit);
    assert tokens.ttype == Word(name);
    var e1 := group.EntryStepAsWritten(tokens);
    var e2 := group.EntryStepAsWritten(tokens);
    var e3 := group.EntryStepAsWritten(tokens);
    assert !AtEnd(tokens.ttype) && tokens.rest == input[1..];
    assert group.subnetgroups == [name, name, name] && group.users == [];
    subs, pending := group.subnetgroups, tokens.rest;
  }
}
