/** The reader of JsonReader.dfy accepts exactly the objects of sections 4 and 5 of RFC 8259. */
module JsonGrammar {
  import opened Common
  import opened JsonReader

  // ---- values and their tokens ----

  /** A string, number or literal; an array; an object. */
  datatype Tree = Leaf(token: Token) | Array(items: seq<Tree>) | Object(members: seq<Member>)

  datatype Member = Member(key: string, value: Tree)

  ghost predicate Proper(t: Tree) {
    match t
    case Leaf(token) => !token.Mark?
    case Array(items) => forall i :: 0 <= i < |items| ==> Proper(items[i])
    case Object(members) => forall i :: 0 <= i < |members| ==> Proper(members[i].value)
  }

  ghost function Tokens(t: Tree): seq<Token>
    decreases t
  {
    match t
    case Leaf(token) => [token]
    case Array(items) => [Mark('[')] + Items(items) + [Mark(']')]
    case Object(members) => [Mark('{')] + Members(members) + [Mark('}')]
  }

  ghost function Comma(first: bool): seq<Token> {
    if first then [] else [Mark(',')]
  }

  ghost function Items(items: seq<Tree>): seq<Token>
    decreases items
  {
    if items == [] then [] else
      var n := |items| - 1;
      Items(items[..n]) + Comma(n == 0) + Tokens(items[n])
  }

  ghost function Members(members: seq<Member>): seq<Token>
    decreases members
  {
    if members == [] then [] else
      var n := |members| - 1;
      Members(members[..n]) + Comma(n == 0) + [Str(members[n].key), Mark(':')] + Tokens(members[n].value)
  }

  /** What the server sees of a value. */
  ghost function Seen(t: Tree): Value {
    match t
    case Leaf(Str(s)) => Text(s)
    case Leaf(Scalar(v)) => v
    case _ => Other
  }

  /** The members by key; the last one counts. */
  ghost function Fields(members: seq<Member>): map<string, Value> {
    if members == [] then map[] else
      var n := |members| - 1;
      Fields(members[..n])[members[n].key := Seen(members[n].value)]
  }

  lemma OneMoreItem(items: seq<Tree>, t: Tree)
    ensures Items(items + [t]) == Items(items) + Comma(items == []) + Tokens(t)
  {
    assert (items + [t])[..|items|] == items;
  }

  lemma OneMoreMember(members: seq<Member>, m: Member)
    ensures Members(members + [m])
         == Members(members) + Comma(members == []) + [Str(m.key), Mark(':')] + Tokens(m.value)
    ensures Fields(members + [m]) == Fields(members)[m.key := Seen(m.value)]
  {
    assert (members + [m])[..|members|] == members;
  }

  // ---- runs of the reader over tokens ----

  ghost function Run(st: State, tokens: seq<Token>): Option<State>
    decreases tokens
  {
    if tokens == [] then Some(st) else
      var st' :- Step(st, tokens[0]);
      Run(st', tokens[1..])
  }

  lemma {:induction false} RunConcat(st: State, a: seq<Token>, b: seq<Token>)
    ensures Run(st, a + b) == match Run(st, a) case None => None case Some(st') => Run(st', b)
    decreases a
  {
    hide Step;
    if a == [] {
      assert a + b == b;
    } else {
      assert (a + b)[1..] == a[1..] + b;
      if Step(st, a[0]).Some? {
        RunConcat(Step(st, a[0]).value, a[1..], b);
      }
    }
  }

  lemma RunOne(st: State, token: Token)
    ensures Run(st, [token]) == Step(st, token)
  {
    assert [token][1..] == [];
  }

  lemma RunNone(st: State)
    ensures Run(st, []) == Some(st)
  {
  }

  ghost predicate Ready(st: State) {
    st.stack != [] && (st.mode.WantValue? || st.mode.WantValueOrClose?)
  }

  /** After these members: those of the outermost object are kept, the last one counting, and so is the last key. */
  ghost predicate Holds(st: State, open: State, members: seq<Member>) {
    && st.stack == open.stack
    && st.mode == (if members == [] then open.mode else AfterValue)
    && (|open.stack| >= 2 ==> st.fields == open.fields && st.key == open.key)
    && (|open.stack| == 1 ==> st.fields == open.fields + Fields(members))
  }

  lemma HoldsMore(st: State, open: State, members: seq<Member>, m: Member)
    requires open.stack != [] && Holds(st, open, members)
    ensures Holds(Store(Keyed(st, m.key), Seen(m.value)), open, members + [m])
  {
    OneMoreMember(members, m);
  }

  // ---- every object is accepted ----

  lemma {:induction false} ValueRuns(st: State, t: Tree)
    requires Ready(st) && Proper(t)
    ensures Run(st, Tokens(t)) == Some(Store(st, Seen(t)))
    decreases t
  {
    hide Run, Store, Items, Members;
    match t
    case Leaf(token) =>
      RunOne(st, token);
    case Array(items) =>
      ItemsRun(Push(st, Arr), items);
      Bracketed(st, Arr, Items(items));
    case Object(members) =>
      MembersRun(Push(st, Obj), members);
      Bracketed(st, Obj, Members(members));
  }

  lemma Bracketed(st: State, f: Frame, inside: seq<Token>)
    requires Ready(st)
    requires Run(Push(st, f), inside) in {Some(Push(st, f)), Some(Push(st, f).(mode := AfterValue))}
    ensures var open, close := if f.Arr? then Mark('[') else Mark('{'), if f.Arr? then Mark(']') else Mark('}');
            Run(st, [open] + inside + [close]) == Some(Store(st, Other))
  {
    var open, close := if f.Arr? then Mark('[') else Mark('{'), if f.Arr? then Mark(']') else Mark('}');
    RunOne(st, open);
    RunConcat(st, [open], inside);
    RunConcat(st, [open] + inside, [close]);
    var inner := Run(Push(st, f), inside).value;
    RunOne(inner, close);
    hide Run;
    assert inner.stack[..|inner.stack| - 1] == st.stack;
  }

  lemma {:induction false} ItemsRun(open: State, items: seq<Tree>)
    requires open.mode.WantValueOrClose? && |open.stack| >= 2 && Inside(open, Arr)
    requires forall i :: 0 <= i < |items| ==> Proper(items[i])
    ensures Run(open, Items(items)) == Some(if items == [] then open else open.(mode := AfterValue))
    decreases items
  {
    hide Run, Tokens;
    RunNone(open);
    if items != [] {
      var n := |items| - 1;
      ItemsRun(open, items[..n]);
      var before, item := Items(items[..n]), Tokens(items[n]);
      RunConcat(open, before, Comma(n == 0));
      RunConcat(open, before + Comma(n == 0), item);
      RunOne(open.(mode := AfterValue), Mark(','));
      ValueRuns(if n == 0 then open else open.(mode := WantValue), items[n]);
    }
  }

  lemma {:induction false} MembersRun(open: State, members: seq<Member>)
    requires open.mode.WantKeyOrClose? && Inside(open, Obj)
    requires forall i :: 0 <= i < |members| ==> Proper(members[i].value)
    ensures Run(open, Members(members)).Some? && Holds(Run(open, Members(members)).value, open, members)
    decreases members
  {
    hide Run, Tokens, Holds;
    if members == [] {
      RunNone(open);
      HoldsNone(open);
    } else {
      var n := |members| - 1;
      var before, m := members[..n], members[n];
      MembersRun(open, before);
      var st := Run(open, Members(before)).value;
      HoldsMeans(st, open, before);
      MemberRuns(st, n == 0, m);
      RunConcat(open, Members(before), Comma(n == 0) + [Str(m.key), Mark(':')] + Tokens(m.value));
      HoldsMore(st, open, before, m);
      assert before + [m] == members;
      OneMoreMember(before, m);
      assert Members(members) == Members(before) + (Comma(n == 0) + [Str(m.key), Mark(':')] + Tokens(m.value));
    }
  }

  lemma HoldsNone(open: State)
    ensures Holds(open, open, [])
  {
    assert open.fields + map[] == open.fields;
  }

  lemma HoldsMeans(st: State, open: State, members: seq<Member>)
    requires Holds(st, open, members)
    ensures st.stack == open.stack && st.mode == if members == [] then open.mode else AfterValue
  {
  }

  lemma MemberRuns(st: State, first: bool, m: Member)
    requires Inside(st, Obj) && Proper(m.value) && if first then st.mode.WantKeyOrClose? else st.mode.AfterValue?
    ensures Run(st, Comma(first) + [Str(m.key), Mark(':')] + Tokens(m.value))
         == Some(Store(Keyed(st, m.key), Seen(m.value)))
    decreases m
  {
    hide Run, Tokens, Proper, Seen;
    var key := [Str(m.key), Mark(':')];
    RunNone(st);
    RunOne(st, Mark(','));
    RunConcat(st, Comma(first), key);
    RunConcat(st, Comma(first) + key, Tokens(m.value));
    var at := if first then st else st.(mode := WantKey);
    KeyRuns(at, m.key);
    ValueRuns(Keyed(at, m.key).(mode := WantValue), m.value);
  }

  lemma KeyRuns(st: State, key: string)
    requires st.mode.WantKey? || st.mode.WantKeyOrClose?
    ensures Run(st, [Str(key), Mark(':')]) == Some(Keyed(st, key).(mode := WantValue))
  {
    RunOne(st, Str(key));
    RunOne(Keyed(st, key), Mark(':'));
    RunConcat(st, [Str(key)], [Mark(':')]);
    assert [Str(key)] + [Mark(':')] == [Str(key), Mark(':')];
  }

  // ---- nothing else is accepted ----

  /** The run ends with the innermost bracket of st closed. */
  ghost predicate Closes(st: State, tokens: seq<Token>) {
    Run(st, tokens).Some? && |Run(st, tokens).value.stack| < |st.stack|
  }

  lemma Begin(st: State, tokens: seq<Token>)
    requires Closes(st, tokens)
    ensures tokens != [] && Step(st, tokens[0]).Some?
    ensures Run(Step(st, tokens[0]).value, tokens[1..]) == Run(st, tokens)
    ensures tokens == [tokens[0]] + tokens[1..]
  {
  }

  /** Where a value is wanted, the tokens start with those of one. */
  lemma {:induction false} ValueSound(st: State, tokens: seq<Token>) returns (t: Tree, rest: seq<Token>)
    requires Ready(st) && Closes(st, tokens)
    requires st.mode.WantValueOrClose? ==> tokens == [] || tokens[0] != Mark(']')
    ensures Proper(t) && tokens == Tokens(t) + rest && |rest| < |tokens|
    ensures Run(Store(st, Seen(t)), rest) == Run(st, tokens)
    decreases |tokens|, 0
  {
    hide Run, Items, Members;
    Begin(st, tokens);
    if !tokens[0].Mark? {
      t, rest := Leaf(tokens[0]), tokens[1..];
    } else if tokens[0] == Mark('[') {
      t, rest := ArraySound(st, tokens[1..]);
      Regroup([Mark('[')], Items(t.items) + [Mark(']')], rest);
      Regroup([Mark('[')], Items(t.items), [Mark(']')]);
    } else {
      t, rest := ObjectSound(st, tokens[1..]);
      Regroup([Mark('{')], Members(t.members) + [Mark('}')], rest);
      Regroup([Mark('{')], Members(t.members), [Mark('}')]);
    }
  }

  lemma {:induction false} ArraySound(st: State, tokens: seq<Token>) returns (t: Tree, rest: seq<Token>)
    requires Ready(st) && Closes(Push(st, Arr), tokens)
    ensures t.Array? && Proper(t) && tokens == Items(t.items) + [Mark(']')] + rest && |rest| < |tokens|
    ensures Run(Store(st, Other), rest) == Run(Push(st, Arr), tokens)
    decreases |tokens|, 2
  {
    hide Run, Store;
    var items;
    items, rest := ItemsSound(Push(st, Arr), Push(st, Arr), [], tokens);
    t := Array(items);
    PopOfPush(st, Arr);
    assert Items([]) + tokens == tokens;
  }

  lemma {:induction false} ObjectSound(st: State, tokens: seq<Token>) returns (t: Tree, rest: seq<Token>)
    requires Ready(st) && Closes(Push(st, Obj), tokens)
    ensures t.Object? && Proper(t) && tokens == Members(t.members) + [Mark('}')] + rest && |rest| < |tokens|
    ensures Run(Store(st, Other), rest) == Run(Push(st, Obj), tokens)
    decreases |tokens|, 3
  {
    hide Run, Store;
    var open, members := Push(st, Obj), [];
    HoldsNone(open);
    members, rest := MembersSound(open, open, [], tokens);
    t := Object(members);
    var end :| Holds(end, open, members) && Run(Pop(end), rest) == Run(open, tokens);
    PopOfPush(st, Obj);
    assert end == open.(mode := end.mode);
    assert Members([]) + tokens == tokens;
  }

  lemma PopOfPush(st: State, f: Frame)
    requires st.stack != []
    ensures forall mode :: Pop(Push(st, f).(mode := mode)) == Store(st, Other)
  {
    assert Push(st, f).stack[..|st.stack|] == st.stack;
  }

  /** After some items of an array, the tokens go on with the others and a bracket. */
  lemma {:induction false} ItemsSound(st: State, open: State, items: seq<Tree>, tokens: seq<Token>)
    returns (all: seq<Tree>, rest: seq<Token>)
    requires |open.stack| >= 2 && Inside(open, Arr) && open.mode.WantValueOrClose? && Closes(st, tokens)
    requires st == if items == [] then open else open.(mode := AfterValue)
    requires forall i :: 0 <= i < |items| ==> Proper(items[i])
    ensures Items(items) + tokens == Items(all) + [Mark(']')] + rest && |rest| < |tokens|
    ensures forall i :: 0 <= i < |all| ==> Proper(all[i])
    ensures Run(Pop(open), rest) == Run(st, tokens)
    decreases |tokens|, 1
  {
    hide Run, Proper, Tokens, Items;
    Begin(st, tokens);
    if tokens[0] == Mark(']') {
      all, rest := items, tokens[1..];
      Regroup(Items(items), [Mark(']')], rest);
    } else {
      var at, after := st, tokens;
      if items != [] {
        at, after := st.(mode := WantValue), tokens[1..];
      }
      var t, more := ValueSound(at, after);
      Regroup(Comma(items == []), Tokens(t), more);
      Regroup(Items(items), Comma(items == []) + Tokens(t), more);
      Regroup(Items(items), Comma(items == []), Tokens(t));
      OneMoreItem(items, t);
      all, rest := ItemsSound(open.(mode := AfterValue), open, items + [t], more);
    }
  }

  lemma Regroup(a: seq<Token>, b: seq<Token>, c: seq<Token>)
    ensures a + (b + c) == a + b + c
  {
  }

  /** Where a member is wanted, the tokens start with those of one. */
  lemma {:induction false} MemberSound(st: State, first: bool, tokens: seq<Token>)
    returns (m: Member, rest: seq<Token>)
    requires Inside(st, Obj) && (if first then st.mode.WantKeyOrClose? else st.mode.AfterValue?) && Closes(st, tokens)
    requires tokens == [] || tokens[0] != Mark('}')
    ensures Proper(m.value) && |rest| < |tokens|
    ensures tokens == Comma(first) + [Str(m.key), Mark(':')] + Tokens(m.value) + rest
    ensures Run(Store(Keyed(st, m.key), Seen(m.value)), rest) == Run(st, tokens)
    decreases |tokens|, 1
  {
    hide Run, Proper, Tokens, Seen;
    Begin(st, tokens);
    var at, after := st, tokens;
    if !first {
      at, after := st.(mode := WantKey), tokens[1..];
    }
    Begin(at, after);
    var key := after[0].s;
    Begin(Keyed(at, key), after[1..]);
    var t;
    t, rest := ValueSound(Keyed(at, key).(mode := WantValue), after[2..]);
    m := Member(key, t);
    assert after == [Str(key), Mark(':')] + after[2..];
    Regroup([Str(key), Mark(':')], Tokens(t), rest);
    assert tokens == Comma(first) + after;
    Regroup(Comma(first), [Str(key), Mark(':')] + Tokens(t), rest);
    Regroup(Comma(first), [Str(key), Mark(':')], Tokens(t));
  }

  lemma {:induction false} MembersSound(st: State, open: State, members: seq<Member>, tokens: seq<Token>)
    returns (all: seq<Member>, rest: seq<Token>)
    requires Inside(open, Obj) && open.mode.WantKeyOrClose? && Holds(st, open, members) && Closes(st, tokens)
    requires forall i :: 0 <= i < |members| ==> Proper(members[i].value)
    ensures Members(members) + tokens == Members(all) + [Mark('}')] + rest && |rest| < |tokens|
    ensures forall i :: 0 <= i < |all| ==> Proper(all[i].value)
    ensures exists end :: Holds(end, open, all) && Run(Pop(end), rest) == Run(st, tokens)
    decreases |tokens|, 2
  {
    hide Run, Proper, Tokens, Members, Holds, Seen;
    Begin(st, tokens);
    HoldsMeans(st, open, members);
    if tokens[0] == Mark('}') {
      all, rest := members, tokens[1..];
      Regroup(Members(members), [Mark('}')], rest);
      EndOfObject(st, tokens);
      assert Holds(st, open, all);
    } else {
      var m, more := MemberSound(st, members == [], tokens);
      var colon := [Str(m.key), Mark(':')];
      OneMoreMember(members, m);
      LongRegroup(Members(members), Comma(members == []), colon, Tokens(m.value), more);
      HoldsMore(st, open, members, m);
      MemberCloses(st, m, more, tokens);
      all, rest := MembersSound(Store(Keyed(st, m.key), Seen(m.value)), open, members + [m], more);
    }
  }

  lemma MemberCloses(st: State, m: Member, rest: seq<Token>, tokens: seq<Token>)
    requires Closes(st, tokens) && Run(Store(Keyed(st, m.key), Seen(m.value)), rest) == Run(st, tokens)
    ensures Closes(Store(Keyed(st, m.key), Seen(m.value)), rest)
  {
    hide Run, Seen;
  }

  lemma EndOfObject(st: State, tokens: seq<Token>)
    requires Inside(st, Obj) && (st.mode.WantKeyOrClose? || st.mode.AfterValue?)
    requires Closes(st, tokens) && tokens[0] == Mark('}')
    ensures Run(Pop(st), tokens[1..]) == Run(st, tokens)
  {
  }

  lemma LongRegroup(a: seq<Token>, b: seq<Token>, c: seq<Token>, d: seq<Token>, e: seq<Token>)
    ensures a + (b + c + d + e) == a + b + c + d + e
  {
  }

  // ---- texts ----

  /** The tokens of a text, white space left out. */
  ghost function Lex(t: string): Option<seq<Token>>
    decreases |t|
  {
    if t == "" then Some([])
    else if IsSpace(t[0]) then Lex(t[1..])
    else
      var (token, rest) :- NextToken(t);
      var tokens :- Lex(rest);
      Some([token] + tokens)
  }

  lemma {:induction false} ScanIsRun(st: State, t: string)
    ensures Scan(st, t) == match Lex(t) case None => None case Some(tokens) => Run(st, tokens)
    decreases |t|
  {
    hide Step, NextToken;
    if t != "" && IsSpace(t[0]) {
      ScanIsRun(st, t[1..]);
    } else if t != "" && NextToken(t).Some? {
      var (token, rest) := NextToken(t).value;
      if Step(st, token).Some? {
        ScanIsRun(Step(st, token).value, rest);
      }
      if Lex(rest).Some? {
        assert ([token] + Lex(rest).value)[1..] == Lex(rest).value;
      }
    }
  }

  lemma {:induction false} LexSkips(t: string)
    ensures Lex(SkipSpace(t)) == Lex(t) && (SkipSpace(t) != "" ==> !IsSpace(SkipSpace(t)[0]))
  {
    if t != "" && IsSpace(t[0]) {
      LexSkips(t[1..]);
    }
  }

  lemma LexOpens(t: string, tokens: seq<Token>)
    requires t != "" && !IsSpace(t[0])
    ensures Lex(t) == Some([Mark('{')] + tokens) <==> t[0] == '{' && Lex(t[1..]) == Some(tokens)
  {
    if NextToken(t).Some? && Lex(NextToken(t).value.1).Some? {
      var (token, rest) := NextToken(t).value;
      assert ([token] + Lex(rest).value)[1..] == Lex(rest).value && ([Mark('{')] + tokens)[1..] == tokens;
    }
  }

  lemma {:induction false} FinishedIsClosed(st: State, tokens: seq<Token>)
    requires (st.mode.Finished? <==> st.stack == []) && Run(st, tokens).Some?
    ensures var end := Run(st, tokens).value;
            end.mode.Finished? <==> end.stack == []
    decreases tokens
  {
    if tokens != [] {
      FinishedIsClosed(Step(st, tokens[0]).value, tokens[1..]);
    }
  }

  lemma ObjectIsRead(text: string, members: seq<Member>)
    requires Proper(Object(members)) && Lex(text) == Some(Tokens(Object(members)))
    ensures ReadObject(text) == Some(Fields(members))
  {
    hide Lex, Members, Run, Scan, Fields;
    var t, inside := SkipSpace(text), Members(members);
    LexSkips(text);
    Regroup([Mark('{')], inside, [Mark('}')]);
    if t == "" {
      LexNothing();
    } else {
      LexOpens(t, inside + [Mark('}')]);
      ScanIsRun(START, t[1..]);
      MembersRun(START, members);
      RunConcat(START, inside, [Mark('}')]);
      var st := Run(START, inside).value;
      RunOne(st, Mark('}'));
      assert st.fields == map[] + Fields(members) == Fields(members);
    }
  }

  lemma LexNothing()
    ensures Lex("") == Some([])
  {
  }

  lemma ReadIsObject(text: string) returns (members: seq<Member>)
    requires ReadObject(text).Some?
    ensures Proper(Object(members)) && Lex(text) == Some(Tokens(Object(members)))
  {
    hide Lex, Members, Run, Scan;
    var t := SkipSpace(text);
    LexSkips(text);
    ScanIsRun(START, t[1..]);
    var tokens := Lex(t[1..]).value;
    FinishedIsClosed(START, tokens);
    HoldsNone(START);
    var rest;
    members, rest := MembersSound(START, START, [], tokens);
    var end :| Holds(end, START, members) && Run(Pop(end), rest) == Run(START, tokens);
    NothingAfter(Pop(end), rest);
    LexOpens(t, tokens);
    NoMembers(tokens);
    assert tokens == Members(members) + [Mark('}')];
    Regroup([Mark('{')], Members(members), [Mark('}')]);
  }

  lemma NoMembers(tokens: seq<Token>)
    ensures Members([]) + tokens == tokens
  {
  }

  lemma NothingAfter(st: State, rest: seq<Token>)
    requires st.mode.Finished? && Run(st, rest).Some?
    ensures rest == []
  {
  }

  /** A text is read as an object with these fields if and only if its tokens are those of an object, and the fields are
      its members, the last one of a key counting. */
  lemma ReadsExactly(text: string, fields: map<string, Value>)
    ensures ReadObject(text) == Some(fields) <==>
            exists members ::
              && Proper(Object(members)) && Lex(text) == Some(Tokens(Object(members))) && Fields(members) == fields
  {
    hide Lex, Tokens, Proper, Fields, ReadObject;
    if ReadObject(text).Some? {
      var members := ReadIsObject(text);
      ObjectIsRead(text, members);
    }
    forall members | Proper(Object(members)) && Lex(text) == Some(Tokens(Object(members)))
      ensures ReadObject(text) == Some(Fields(members))
    {
      ObjectIsRead(text, members);
    }
  }
}
