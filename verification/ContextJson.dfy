/** The context that server/__init__.py prints and the parser of it in
    server/client/koheron-client.hpp. */
module ContextJson {
  import opened JsonText
  import opened JsonPrinter

  // ---------------------------------------------------------------- the generator

  /** An entry of args_client, an operation and a driver, as get_json uses them; the type names
      are those that the running server streams into the text. */
  datatype Arg = Arg(name: string, typeName: string)

  datatype Op = Op(name: string, id: nat, retType: string, args: seq<Arg>)

  datatype Driver = Driver(name: string, id: nat, operations: seq<Op>)

  function ArgJson(a: Arg): Json {
    JObject([Field("name", JString(a.name)), Field("type", JString(a.typeName))])
  }

  function ArgList(args: seq<Arg>): seq<Json> {
    if args == [] then [] else [ArgJson(args[0])] + ArgList(args[1..])
  }

  /** The functions of KServer list their arguments before their type, those of drivers after. */
  function OpJson(op: Op, argsFirst: bool): Json {
    var ret, args := Field("ret_type", JString(op.retType)), Field("args", JArray(ArgList(op.args)));
    JObject([Field("name", JString(op.name)), Field("id", JNumber(op.id))]
            + if argsFirst then [args, ret] else [ret, args])
  }

  function OpList(ops: seq<Op>, argsFirst: bool): seq<Json> {
    if ops == [] then [] else [OpJson(ops[0], argsFirst)] + OpList(ops[1..], argsFirst)
  }

  function ClassJson(d: Driver, argsFirst: bool): Json {
    JObject([Field("class", JString(d.name)), Field("id", JNumber(d.id)),
             Field("functions", JArray(OpList(d.operations, argsFirst)))])
  }

  function ClassList(ds: seq<Driver>, argsFirst: bool): seq<Json> {
    if ds == [] then [] else [ClassJson(ds[0], argsFirst)] + ClassList(ds[1..], false)
  }

  function KServer(): Driver {
    Driver("KServer", 1, [Op("get_version", 0, "const char *", []), Op("get_cmds", 1, "std::string", [])])
  }

  /** get_json */
  function GetJson(drivers: seq<Driver>): string {
    Dumps(JArray(ClassList([KServer()] + drivers, true)))
  }

  // ---------------------------------------------------------------- the parser

  datatype OpEntry = OpEntry(id: nat, classId: nat, funcId: nat, className: string, funcName: string,
                             retType: string, args: seq<string>)

  /** Bitwise or. */
  function Or(x: nat, y: nat): nat {
    if x == 0 then y else 2 * Or(x / 2, y / 2) + if x % 2 == 1 || y % 2 == 1 then 1 else 0
  }

  /** (cid << 16) | fid in 32 bits. */
  function OpId(cid: nat, fid: nat): nat {
    Or(cid * 0x1_0000 % 0x1_0000_0000, fid)
  }

  /** After an element of an array: past the comma, if there is one. */
  function NextItem(s: string, oend: nat, end: nat): (r: nat)
    requires oend <= |s| && end <= |s|
    ensures oend <= r <= |s|
  {
    var p := SkipWs(s, oend);
    if p < end && s[p] == ',' then SkipWs(s, p + 1) else p
  }

  /** The string after key, if key starts in [from, end). */
  function StringAfter(s: string, key: string, from: nat, end: nat): string
    requires key != ""
  {
    var p := Find(s, key, from);
    if p < end then ParseString(s, p + |key| - 1).value else ""
  }

  /** The loop of fill_op_extras. */
  function ArgTypes(s: string, p: nat, end: nat): seq<string>
    requires end <= |s|
    decreases |s| - p
  {
    if p >= end || s[p] != '{' then []
    else
      var oend := SkipObject(s, p);
      if oend == Npos(s) || oend > end then []
      else [StringAfter(s, "\"type\":\"", p, oend)] + ArgTypes(s, NextItem(s, oend, end), end)
  }

  /** fill_op_extras: the argument types. */
  function OpArgs(s: string, start: nat, end: nat): seq<string>
    requires end <= |s|
  {
    var ap := Find(s, "\"args\":[", start);
    if ap >= end then [] else ArgTypes(s, SkipWs(s, ap + 8), end)
  }

  /** The loop of parse_ops over the functions of one class. */
  function ParseFunctions(s: string, p: nat, cend: nat, cid: nat, className: string): seq<OpEntry>
    requires cend <= |s|
    decreases |s| - p
  {
    if p >= cend || s[p] != '{' then []
    else
      var oend := SkipObject(s, p);
      if oend == Npos(s) || oend > cend then []
      else
        var name := ParseString(s, p + 8);
        if name.next == Npos(s) then []
        else
          var ip := Find(s, "\"id\":", name.next);
          if ip >= oend then []
          else
            var fid := ParseUint(s, ip + 5);
            if fid.NoNumber? then []
            else
              [OpEntry(OpId(cid, fid.value), cid % 0x1_0000, fid.value % 0x1_0000, className, name.value,
                       StringAfter(s, "\"ret_type\":\"", name.next, oend), OpArgs(s, name.next, oend))]
              + ParseFunctions(s, NextItem(s, oend, cend), cend, cid, className)
  }

  const CLASS_KEY := "\"class\":\""

  /** The outer loop of parse_ops. */
  function ParseClasses(s: string, pos: nat): seq<OpEntry>
    requires pos <= |s|
    decreases |s| - pos, 1
  {
    var cpos := Find(s, CLASS_KEY, pos);
    if cpos == Npos(s) then [] else ParseClass(s, cpos)
  }

  /** The body of the outer loop, and the classes that follow. */
  function ParseClass(s: string, cpos: nat): seq<OpEntry>
    requires MatchAt(s, CLASS_KEY, cpos)
    decreases |s| - cpos, 0
  {
    var name := ParseString(s, cpos + 8);
    if name.next == Npos(s) then ParseClasses(s, cpos + 9)
    else
      var next := Find(s, CLASS_KEY, name.next);
      var cend := if next == Npos(s) then |s| else next;
      var ip := Find(s, "\"id\":", name.next);
      if ip >= cend then []
      else
        var cid := ParseUint(s, ip + 5);
        if cid.NoNumber? then []
        else
          var farr := Find(s, "\"functions\":[", ip);
          if farr >= cend then ParseClasses(s, cend)
          else
            ParseFunctions(s, SkipWs(s, farr + 13), cend, cid.value, name.value) + ParseClasses(s, cend)
  }

  // ---------------------------------------------------------------- what it must return

  /** What parse_uint keeps of a printed number. */
  function Stored(n: nat): nat {
    (if n > ULONG_MAX then ULONG_MAX else n) % 0x1_0000_0000
  }

  function TypesOf(args: seq<Arg>): seq<string> {
    if args == [] then [] else [args[0].typeName] + TypesOf(args[1..])
  }

  function Entry(d: Driver, op: Op): OpEntry {
    OpEntry(OpId(Stored(d.id), Stored(op.id)), Stored(d.id) % 0x1_0000, Stored(op.id) % 0x1_0000,
            d.name, op.name, op.retType, TypesOf(op.args))
  }

  function Entries(d: Driver, ops: seq<Op>): seq<OpEntry> {
    if ops == [] then [] else [Entry(d, ops[0])] + Entries(d, ops[1..])
  }

  function Flatten(ds: seq<Driver>): seq<OpEntry> {
    if ds == [] then [] else Entries(ds[0], ds[0].operations) + Flatten(ds[1..])
  }

  predicate PlainArgs(args: seq<Arg>) {
    forall i :: 0 <= i < |args| ==> Plain(args[i].name) && Plain(args[i].typeName)
  }

  predicate PlainOps(ops: seq<Op>) {
    forall i :: 0 <= i < |ops| ==> Plain(ops[i].name) && Plain(ops[i].retType) && PlainArgs(ops[i].args)
  }

  predicate PlainDrivers(ds: seq<Driver>) {
    forall i :: 0 <= i < |ds| ==> Plain(ds[i].name) && PlainOps(ds[i].operations)
  }

  // ---------------------------------------------------------------- elements of arrays

  lemma PunctAt(s: string, p: nat, c: char, rest: seq<Token>)
    requires Here(s, p, [Punct(c)] + rest)
    ensures p < |s| && s[p] == c && Here(s, p + 1, rest) && Len([Punct(c)] + rest) == 1 + Len(rest)
    ensures !IsWs(c) ==> SkipWs(s, p) == p
  {
    hide Here, Len;
    Peel(s, p, [Punct(c)] + rest);
    assert ([Punct(c)] + rest)[1..] == rest;
    assert s[p] == s[p..p + 1][0];
  }

  ghost predicate PlainObjects(items: seq<Json>) {
    forall i :: 0 <= i < |items| ==> items[i].JObject? && PlainStrings(items[i])
  }

  lemma ObjectStart(s: string, p: nat, v: Json, rest: seq<Token>)
    requires v.JObject? && Here(s, p, Tokens(v) + rest)
    ensures p < |s| && s[p] == '{' && SkipWs(s, p) == p && Len(Tokens(v)) > 0
  {
    hide Here, Len, Fields;
    Move(s, p, Tokens(v), rest);
    assert Tokens(v) == [Punct('{')] + (Fields(v.fields) + [Punct('}')]);
    PunctAt(s, p, '{', Fields(v.fields) + [Punct('}')]);
  }

  /** What is left of an array after its first element, seen from the end of that element. */
  function Left(items: seq<Json>): seq<Token> {
    (if items == [] then [] else [Punct(',')] + Items(items)) + [Punct(']')]
  }

  lemma ItemsLeft(items: seq<Json>)
    requires items != []
    ensures Items(items) + [Punct(']')] == Tokens(items[0]) + Left(items[1..])
  {
    hide Tokens;
    var i0 := Tokens(items[0]);
    if |items| == 1 {
      assert items[1..] == [];
    } else {
      var rest := [Punct(',')] + Items(items[1..]);
      ItemsUnfold(items);
      Assoc(i0, rest, [Punct(']')]);
    }
  }

  lemma ItemsUnfold(items: seq<Json>)
    requires |items| > 1
    ensures Items(items) == Tokens(items[0]) + ([Punct(',')] + Items(items[1..]))
  {
    Assoc(Tokens(items[0]), [Punct(',')], Items(items[1..]));
  }

  lemma Assoc(a: seq<Token>, b: seq<Token>, c: seq<Token>)
    ensures a + b + c == a + (b + c)
  {
  }

  lemma NextItemAt(s: string, p: nat, items: seq<Json>, end: nat)
    requires PlainObjects(items) && Here(s, p, Left(items)) && p + Len(Left(items)) <= end <= |s|
    ensures var q := NextItem(s, p, end);
      Here(s, q, Items(items) + [Punct(']')]) && q + Len(Items(items) + [Punct(']')]) == p + Len(Left(items))
  {
    hide Here, Len, Tokens;
    if items == [] {
      assert Left(items) == [Punct(']')] + [];
      PunctAt(s, p, ']', []);
    } else {
      var ts := Items(items) + [Punct(']')];
      assert Left(items) == [Punct(',')] + ts;
      PunctAt(s, p, ',', ts);
      ItemsLeft(items);
      hide Left;
      ObjectStart(s, p + 1, items[0], Left(items[1..]));
    }
  }

  /** One turn of a loop over an array of objects: from the start of an element to the next. */
  lemma ItemStep(s: string, p: nat, items: seq<Json>, end: nat)
    requires items != [] && PlainObjects(items)
    requires Here(s, p, Items(items) + [Punct(']')]) && p + Len(Items(items) + [Punct(']')]) <= end <= |s|
    ensures p < end && s[p] == '{' && Here(s, p, Tokens(items[0]))
    ensures var oend := p + Len(Tokens(items[0]));
      SkipObject(s, p) == oend <= end &&
      var q := NextItem(s, oend, end);
      && Here(s, q, Items(items[1..]) + [Punct(']')])
      && q + Len(Items(items[1..]) + [Punct(']')]) == p + Len(Items(items) + [Punct(']')])
  {
    hide *;
    var i0 := items[0];
    PlainRest(items);
    ItemsLeft(items);
    Move(s, p, Tokens(i0), Left(items[1..]));
    ObjectStart(s, p, i0, Left(items[1..]));
    SkipObjectSkipsValue(s, p, i0);
    DumpsLength(i0);
    NextItemAt(s, p + Len(Tokens(i0)), items[1..], end);
  }

  lemma PlainRest(items: seq<Json>)
    requires items != [] && PlainObjects(items)
    ensures items[0].JObject? && PlainStrings(items[0]) && PlainObjects(items[1..])
  {
  }

  lemma DumpsLength(v: Json)
    ensures |Dumps(v)| == Len(Tokens(v))
  {
  }

  lemma NoItem(s: string, p: nat)
    requires Here(s, p, Items([]) + [Punct(']')])
    ensures p < |s| && s[p] == ']'
  {
    hide Here;
    assert Items([]) + [Punct(']')] == [Punct(']')] + [];
    PunctAt(s, p, ']', []);
  }

  // ---------------------------------------------------------------- values of keys

  lemma StrStart(s: string, p: nat, v: string)
    requires Here(s, p, [Str(v)])
    ensures MatchAt(s, "\"", p)
  {
    hide Here, Len;
    One(s, p, Str(v));
    StrAt(s, p, v);
    assert s[p..p + 1] == "\"";
  }

  /** The string value of the next key that is k. */
  lemma StringAt(s: string, p: nat, a: seq<Token>, k: string, v: string, rest: seq<Token>, end: nat)
    requires Here(s, p, a + [Key(k), Str(v)] + rest) && AllOk(a) && Key(k) !in a && IsName(k) && Plain(v)
    requires p + Len(a) < end
    ensures StringAfter(s, Wanted(k, "\""), p, end) == v
  {
    hide *;
    Regroup(a, Key(k), Str(v), rest);
    Move(s, p, a + [Key(k)], [Str(v)] + rest);
    KeyLength(s, p, a, k);
    var q := p + Len(a) + |k| + 3;
    Move(s, q, [Str(v)], rest);
    StrStart(s, q, v);
    FindKey(s, p, a, k, "\"");
    ParseStr(s, q, v);
    StringAfterIs(s, k, p, end, p + Len(a));
  }

  lemma StringAfterIs(s: string, k: string, from: nat, end: nat, p: nat)
    requires Find(s, Wanted(k, "\""), from) == p && p < end
    ensures StringAfter(s, Wanted(k, "\""), from, end) == ParseString(s, p + |k| + 3).value
  {
    hide Find, ParseString;
  }

  lemma Regroup(a: seq<Token>, k: Token, v: Token, rest: seq<Token>)
    ensures a + [k, v] + rest == a + [k] + ([v] + rest)
  {
  }

  lemma KeyLength(s: string, p: nat, a: seq<Token>, k: string)
    requires Here(s, p, a + [Key(k)])
    ensures Len(a + [Key(k)]) == Len(a) + |k| + 3
  {
    hide Here, Len, Show;
    Move(s, p, a, [Key(k)]);
    One(s, p + Len(a), Key(k));
    WantedLength(k);
  }

  // ---------------------------------------------------------------- arguments

  lemma ArgTokens(a: Arg)
    ensures Tokens(ArgJson(a)) ==
      [Punct('{'), Key("name"), Str(a.name), Punct(',')] + [Key("type"), Str(a.typeName)] + [Punct('}')]
  {
    var n, t := Field("name", JString(a.name)), Field("type", JString(a.typeName));
    FieldsOf(n, [t]);
    assert Fields([t]) == FieldTokens(t) == [Key("type"), Str(a.typeName)];
    assert FieldTokens(n) == [Key("name"), Str(a.name)];
  }

  lemma FieldsOf(f: Field, rest: seq<Field>)
    requires rest != []
    ensures Fields([f] + rest) == FieldTokens(f) + [Punct(',')] + Fields(rest)
  {
    assert ([f] + rest)[1..] == rest;
  }

  /** A proper part is shorter. */
  lemma Shorter(s: string, p: nat, a: seq<Token>, b: seq<Token>)
    requires Here(s, p, a + b) && b != []
    ensures Len(a) < Len(a + b)
  {
    hide Here, Len;
    Move(s, p, a, b);
    Peel(s, p + Len(a), b);
  }

  lemma {:induction false} ArgListPlain(args: seq<Arg>)
    requires PlainArgs(args)
    ensures PlainObjects(ArgList(args))
  {
    if args != [] {
      ArgListPlain(args[1..]);
      PlainArg(args[0]);
      hide PlainStrings, Plain;
    }
  }

  lemma PlainArg(a: Arg)
    requires Plain(a.name) && Plain(a.typeName)
    ensures PlainStrings(ArgJson(a))
  {
    assert Plain("name") && Plain("type");
    hide Plain;
  }

  lemma ArgTypeAt(s: string, p: nat, a: Arg)
    requires Plain(a.name) && Plain(a.typeName) && Here(s, p, Tokens(ArgJson(a)))
    ensures StringAfter(s, "\"type\":\"", p, p + Len(Tokens(ArgJson(a)))) == a.typeName
  {
    hide Here, Len, StringAfter, Tokens, ArgJson;
    ArgTokens(a);
    var before := [Punct('{'), Key("name"), Str(a.name), Punct(',')];
    assert Plain("name") && IsName("type");
    hide Plain, IsName;
    Assoc(before, [Key("type"), Str(a.typeName)], [Punct('}')]);
    Shorter(s, p, before, [Key("type"), Str(a.typeName)] + [Punct('}')]);
    assert Wanted("type", "\"") == "\"type\":\"";
    StringAt(s, p, before, "type", a.typeName, [Punct('}')], p + Len(Tokens(ArgJson(a))));
  }

  /** The argument objects give back the type names. */
  lemma {:induction false} ArgTypesAt(s: string, p: nat, args: seq<Arg>, end: nat)
    requires PlainArgs(args) && Here(s, p, Items(ArgList(args)) + [Punct(']')])
    requires p + Len(Items(ArgList(args)) + [Punct(']')]) <= end <= |s|
    ensures ArgTypes(s, p, end) == TypesOf(args)
    decreases |args|
  {
    hide Here, Len, Items, SkipObject, StringAfter, ArgJson, Tokens, NextItem;
    if args == [] {
      NoItem(s, p);
    } else {
      ArgListPlain(args);
      ItemStep(s, p, ArgList(args), end);
      ArgTypeAt(s, p, args[0]);
      var oend := SkipObject(s, p);
      assert ArgList(args)[1..] == ArgList(args[1..]);
      ArgTypesAt(s, NextItem(s, oend, end), args[1..], end);
    }
  }

  // ---------------------------------------------------------------- functions

  /** The next number that is an id. */
  lemma IdAt(s: string, p: nat, a: seq<Token>, n: nat, rest: seq<Token>)
    requires Here(s, p, a + [Key("id"), Num(n), Punct(',')] + rest) && AllOk(a) && Key("id") !in a
    ensures Find(s, "\"id\":", p) == p + Len(a)
    ensures ParseUint(s, p + Len(a) + 5) == Number(Stored(n))
  {
    hide *;
    assert a + [Key("id"), Num(n), Punct(',')] + rest == a + [Key("id")] + ([Num(n)] + ([Punct(',')] + rest));
    Move(s, p, a + [Key("id")], [Num(n)] + ([Punct(',')] + rest));
    KeyLength(s, p, a, "id");
    var q := p + Len(a) + 5;
    Move(s, q, [Num(n)], [Punct(',')] + rest);
    CommaAt(s, q + Len([Num(n)]), rest);
    Names();
    EmptyMatch(s, q, [Num(n)]);
    FindKey(s, p, a, "id", "");
    ParseNum(s, q, n);
    StoredIs(n);
  }

  lemma StoredIs(n: nat)
    ensures Stored(n) == (if n > ULONG_MAX then ULONG_MAX else n) % 0x1_0000_0000
  {
  }

  lemma CommaAt(s: string, p: nat, rest: seq<Token>)
    requires Here(s, p, [Punct(',')] + rest)
    ensures p < |s| ==> !IsDigit(s[p])
  {
    hide Here;
    PunctAt(s, p, ',', rest);
  }

  lemma EmptyMatch(s: string, p: nat, ts: seq<Token>)
    requires Here(s, p, ts)
    ensures MatchAt(s, "", p)
  {
  }

  lemma Names()
    ensures IsName("id") && IsName("type") && IsName("args") && IsName("class") && IsName("functions")
    ensures IsName("ret_type") && Plain("name")
    ensures Wanted("id", "") == "\"id\":" && Wanted("type", "\"") == "\"type\":\""
    ensures Wanted("ret_type", "\"") == "\"ret_type\":\"" && Wanted("args", "[") == "\"args\":["
    ensures Wanted("class", "\"") == CLASS_KEY && Wanted("functions", "[") == "\"functions\":["
  {
    KeyNames();
    hide IsName, Plain;
  }

  lemma KeyNames()
    ensures IsName("id") && IsName("type") && IsName("args") && IsName("class") && IsName("functions")
    ensures IsName("ret_type") && Plain("name")
  {
  }

  /** The array under a key. */
  function ArrayField(k: string, items: seq<Json>): seq<Token> {
    [Key(k), Punct('[')] + (Items(items) + [Punct(']')])
  }

  /** The next key that is k, when an array is its value, and where the elements start. */
  lemma ArrayAt(s: string, p: nat, a: seq<Token>, k: string, items: seq<Json>, rest: seq<Token>)
    requires Here(s, p, a + ArrayField(k, items) + rest) && AllOk(a) && Key(k) !in a && IsName(k)
    requires PlainObjects(items)
    ensures Find(s, Wanted(k, "["), p) == p + Len(a)
    ensures var q := p + Len(a) + |k| + 4;
      && q <= |s| && SkipWs(s, q) == q && Here(s, q, Items(items) + [Punct(']')])
      && q + Len(Items(items) + [Punct(']')]) == p + Len(a + ArrayField(k, items))
  {
    hide *;
    var ts := Items(items) + [Punct(']')];
    ArrayFieldIs(a, k, items, rest);
    Move(s, p, a + ArrayField(k, items), rest);
    Move(s, p, a + [Key(k)], [Punct('[')] + ts);
    KeyLength(s, p, a, k);
    var q := p + Len(a) + |k| + 3;
    PunctAt(s, q, '[', ts);
    BracketMatch(s, q);
    FindKey(s, p, a, k, "[");
    ItemsStart(s, q + 1, items);
  }

  lemma ArrayFieldIs(a: seq<Token>, k: string, items: seq<Json>, rest: seq<Token>)
    ensures a + ArrayField(k, items) == a + [Key(k)] + ([Punct('[')] + (Items(items) + [Punct(']')]))
  {
    hide Items;
  }

  lemma BracketMatch(s: string, p: nat)
    requires p < |s| && s[p] == '['
    ensures MatchAt(s, "[", p)
  {
    assert s[p..p + 1] == "[";
  }

  lemma ItemsStart(s: string, p: nat, items: seq<Json>)
    requires Here(s, p, Items(items) + [Punct(']')]) && PlainObjects(items)
    ensures p <= |s| && SkipWs(s, p) == p
  {
    hide Here, Items, Tokens;
    if items == [] {
      NoItem(s, p);
    } else {
      ItemsLeft(items);
      ObjectStart(s, p, items[0], Left(items[1..]));
    }
  }

  /** fill_op_extras, the argument types. */
  lemma OpArgsAt(s: string, p: nat, a: seq<Token>, args: seq<Arg>, rest: seq<Token>, end: nat)
    requires Here(s, p, a + ArrayField("args", ArgList(args)) + rest) && AllOk(a) && Key("args") !in a
    requires PlainArgs(args) && p + Len(a + ArrayField("args", ArgList(args))) <= end <= |s|
    ensures OpArgs(s, p, end) == TypesOf(args)
  {
    hide *;
    Names();
    ArgListPlain(args);
    ArrayAt(s, p, a, "args", ArgList(args), rest);
    var q := p + Len(a) + 8;
    ArgTypesAt(s, q, args, end);
    OpArgsIs(s, p, end, p + Len(a));
  }

  lemma OpArgsIs(s: string, from: nat, end: nat, p: nat)
    requires end <= |s| && Find(s, "\"args\":[", from) == p < end && SkipWs(s, p + 8) == p + 8
    ensures OpArgs(s, from, end) == ArgTypes(s, p + 8, end)
  {
    hide Find, SkipWs, ArgTypes;
  }

  /** An operation as printed: up to its name, its identifier, and the two fields that follow in
      one of two orders. */
  function OpHead(op: Op): seq<Token> {
    [Punct('{'), Key("name"), Str(op.name)]
  }

  function OpIdField(op: Op): seq<Token> {
    [Punct(','), Key("id"), Num(op.id), Punct(',')]
  }

  function OpTail(op: Op, argsFirst: bool): seq<Token> {
    var ret, args := [Key("ret_type"), Str(op.retType)], ArrayField("args", ArgList(op.args));
    if argsFirst then OpIdField(op) + args + ([Punct(',')] + (ret + [Punct('}')]))
    else OpIdField(op) + ret + ([Punct(',')] + (args + [Punct('}')]))
  }

  lemma FourFields(n: Field, i: Field, x: Field, y: Field)
    ensures Fields([n, i] + [x, y]) ==
      FieldTokens(n) + [Punct(',')] + (FieldTokens(i) + [Punct(',')] + (FieldTokens(x) + [Punct(',')] + FieldTokens(y)))
  {
    hide *;
    assert [n, i] + [x, y] == [n] + [i, x, y];
    FieldsOf(n, [i, x, y]);
    assert [i, x, y] == [i] + [x, y];
    FieldsOf(i, [x, y]);
    assert [x, y] == [x] + [y];
    FieldsOf(x, [y]);
    LastField(y);
  }

  lemma LastField(f: Field)
    ensures Fields([f]) == FieldTokens(f)
  {
  }

  lemma OpTokens(op: Op, argsFirst: bool)
    ensures Tokens(OpJson(op, argsFirst)) == OpHead(op) + OpTail(op, argsFirst)
  {
    hide Fields, ArgList, ArrayField, Items;
    var n, i := Field("name", JString(op.name)), Field("id", JNumber(op.id));
    var ret, args := Field("ret_type", JString(op.retType)), Field("args", JArray(ArgList(op.args)));
    FourFields(n, i, if argsFirst then args else ret, if argsFirst then ret else args);
    ArrayFieldTokens("args", ArgList(op.args));
    SimpleFields(op);
    hide FieldTokens;
  }

  lemma SimpleFields(op: Op)
    ensures FieldTokens(Field("name", JString(op.name))) == [Key("name"), Str(op.name)]
    ensures FieldTokens(Field("id", JNumber(op.id))) == [Key("id"), Num(op.id)]
    ensures FieldTokens(Field("ret_type", JString(op.retType))) == [Key("ret_type"), Str(op.retType)]
  {
  }

  lemma ArrayFieldTokens(k: string, items: seq<Json>)
    ensures FieldTokens(Field(k, JArray(items))) == ArrayField(k, items)
  {
    hide Items;
  }

  /** The keys inside a printed list of arguments. */
  lemma {:induction false} ArgKeys(args: seq<Arg>, k: string)
    requires k != "name" && k != "type"
    ensures Key(k) !in Items(ArgList(args))
  {
    hide Tokens, ArgJson;
    if args != [] {
      ArgKeys(args[1..], k);
      ArgTokens(args[0]);
    }
  }

  lemma ArgsTokensOk(args: seq<Arg>)
    requires PlainArgs(args)
    ensures AllOk(ArrayField("args", ArgList(args)))
    ensures Key("ret_type") !in ArrayField("args", ArgList(args))
  {
    hide Items, Balanced, Plain, IsName, ArgList, PlainStrings;
    KeyNames();
    ArgListPlain(args);
    ItemsBalanced(ArgList(args));
    ArgKeys(args, "ret_type");
    var ts := Items(ArgList(args));
    assert forall t :: t in ArrayField("args", ArgList(args)) ==>
        t == Key("args") || t == Punct('[') || t in ts || t == Punct(']');
  }

  lemma IdPart(op: Op, argsFirst: bool) returns (r: seq<Token>)
    ensures OpTail(op, argsFirst) == [Punct(',')] + [Key("id"), Num(op.id), Punct(',')] + r
  {
    hide ArrayField, ArgList;
    r := OpTail(op, argsFirst)[4..];
  }

  lemma RetPart(op: Op, argsFirst: bool) returns (a: seq<Token>, r: seq<Token>)
    requires PlainArgs(op.args)
    ensures OpTail(op, argsFirst) == a + [Key("ret_type"), Str(op.retType)] + r
    ensures AllOk(a) && Key("ret_type") !in a
  {
    hide ArrayField, ArgList, PlainArgs;
    ArgsTokensOk(op.args);
    Names();
    var mid, args := OpIdField(op), ArrayField("args", ArgList(op.args));
    if argsFirst {
      a, r := mid + args + [Punct(',')], [Punct('}')];
      var ret := [Key("ret_type"), Str(op.retType)];
      assert mid + args + ([Punct(',')] + (ret + [Punct('}')])) == mid + args + [Punct(',')] + ret + [Punct('}')];
    } else {
      a, r := mid, [Punct(',')] + (args + [Punct('}')]);
    }
  }

  lemma ArgsPart(op: Op, argsFirst: bool) returns (a: seq<Token>, r: seq<Token>)
    requires Plain(op.retType)
    ensures OpTail(op, argsFirst) == a + ArrayField("args", ArgList(op.args)) + r
    ensures AllOk(a) && Key("args") !in a
  {
    hide ArrayField, ArgList, Plain;
    Names();
    var mid, args, ret := OpIdField(op), ArrayField("args", ArgList(op.args)), [Key("ret_type"), Str(op.retType)];
    assert AllOk(mid);
    if argsFirst {
      a, r := mid, [Punct(',')] + (ret + [Punct('}')]);
    } else {
      a, r := mid + ret + [Punct(',')], [Punct('}')];
      assert mid + ret + ([Punct(',')] + (args + [Punct('}')])) == mid + ret + [Punct(',')] + args + [Punct('}')];
    }
  }

  /** What parse_ops reads of a function object behind its name. */
  lemma TailAt(s: string, q: nat, op: Op, argsFirst: bool, end: nat)
    requires Plain(op.retType) && PlainArgs(op.args)
    requires Here(s, q, OpTail(op, argsFirst)) && end == q + Len(OpTail(op, argsFirst)) <= |s|
    ensures var ip := Find(s, "\"id\":", q); ip < end && ParseUint(s, ip + 5) == Number(Stored(op.id))
    ensures StringAfter(s, "\"ret_type\":\"", q, end) == op.retType
    ensures OpArgs(s, q, end) == TypesOf(op.args)
  {
    hide *;
    Names();
    TailId(s, q, op, argsFirst, end);
    var a, r := RetPart(op, argsFirst);
    Assoc(a, [Key("ret_type"), Str(op.retType)], r);
    Shorter(s, q, a, [Key("ret_type"), Str(op.retType)] + r);
    StringAt(s, q, a, "ret_type", op.retType, r, end);
    a, r := ArgsPart(op, argsFirst);
    Move(s, q, a + ArrayField("args", ArgList(op.args)), r);
    OpArgsAt(s, q, a, op.args, r, end);
  }

  lemma TailId(s: string, q: nat, op: Op, argsFirst: bool, end: nat)
    requires Here(s, q, OpTail(op, argsFirst)) && end == q + Len(OpTail(op, argsFirst))
    ensures var ip := Find(s, "\"id\":", q); ip < end && ParseUint(s, ip + 5) == Number(Stored(op.id))
  {
    hide Here, Len, OpTail, Find, ParseUint, Stored;
    var r := IdPart(op, argsFirst);
    Assoc([Punct(',')], [Key("id"), Num(op.id), Punct(',')], r);
    Shorter(s, q, [Punct(',')], [Key("id"), Num(op.id), Punct(',')] + r);
    IdAt(s, q, [Punct(',')], op.id, r);
  }

  /** One function object gives back its operation. */
  lemma FunctionAt(s: string, p: nat, op: Op, argsFirst: bool, cend: nat, cid: nat, className: string)
    requires Plain(op.name) && Plain(op.retType) && PlainArgs(op.args)
    requires Here(s, p, Tokens(OpJson(op, argsFirst))) && p < cend <= |s| && s[p] == '{'
    requires SkipObject(s, p) == p + Len(Tokens(OpJson(op, argsFirst))) <= cend
    ensures ParseFunctions(s, p, cend, cid, className) ==
      [OpEntry(OpId(cid, Stored(op.id)), cid % 0x1_0000, Stored(op.id) % 0x1_0000, className, op.name,
               op.retType, TypesOf(op.args))]
      + ParseFunctions(s, NextItem(s, SkipObject(s, p), cend), cend, cid, className)
  {
    hide *;
    var tail := OpTail(op, argsFirst);
    OpTokens(op, argsFirst);
    HeadIs(op);
    Move(s, p, OpHead(op), tail);
    var before := [Punct('{'), Key("name")];
    Move(s, p, before, [Str(op.name)]);
    BeforeLength();
    ParseStr(s, p + 8, op.name);
    TailAt(s, p + Len(OpHead(op)), op, argsFirst, SkipObject(s, p));
    OneFunction(s, p, cend, cid, className);
  }

  lemma HeadIs(op: Op)
    ensures OpHead(op) == [Punct('{'), Key("name")] + [Str(op.name)]
  {
  }

  lemma BeforeLength()
    ensures Len([Punct('{'), Key("name")]) == 8
  {
    assert [Punct('{'), Key("name")] == [Punct('{')] + [Key("name")];
    RenderConcat([Punct('{')], [Key("name")]);
    One("", 0, Punct('{'));
    One("", 0, Key("name"));
  }

  /** The way through the body of the loop on which nothing is missing. */
  lemma OneFunction(s: string, p: nat, cend: nat, cid: nat, className: string)
    requires p < cend <= |s| && s[p] == '{' && SkipObject(s, p) <= cend
    requires ParseString(s, p + 8).next <= |s|
    requires Find(s, "\"id\":", ParseString(s, p + 8).next) < SkipObject(s, p)
    requires ParseUint(s, Find(s, "\"id\":", ParseString(s, p + 8).next) + 5).Number?
    ensures var oend, name := SkipObject(s, p), ParseString(s, p + 8);
      var fid := ParseUint(s, Find(s, "\"id\":", name.next) + 5);
      ParseFunctions(s, p, cend, cid, className) ==
        [OpEntry(OpId(cid, fid.value), cid % 0x1_0000, fid.value % 0x1_0000, className, name.value,
                 StringAfter(s, "\"ret_type\":\"", name.next, oend), OpArgs(s, name.next, oend))]
        + ParseFunctions(s, NextItem(s, oend, cend), cend, cid, className)
  {
    hide SkipObject, ParseString, Find, ParseUint, StringAfter, OpArgs, OpId, NextItem;
  }

  lemma {:induction false} OpListPlain(ops: seq<Op>, argsFirst: bool)
    requires PlainOps(ops)
    ensures PlainObjects(OpList(ops, argsFirst))
  {
    if ops != [] {
      OpListPlain(ops[1..], argsFirst);
      PlainOp(ops[0], argsFirst);
      hide PlainStrings, Plain, PlainArgs;
    }
  }

  lemma PlainOp(op: Op, argsFirst: bool)
    requires Plain(op.name) && Plain(op.retType) && PlainArgs(op.args)
    ensures PlainStrings(OpJson(op, argsFirst))
  {
    ArgListPlain(op.args);
    Names();
    hide Plain, PlainArgs, ArgList, IsName;
    assert PlainStrings(JArray(ArgList(op.args)));
  }

  /** The function objects give back the operations, in order. */
  lemma {:induction false} FunctionsAt(s: string, p: nat, d: Driver, ops: seq<Op>, argsFirst: bool, cend: nat)
    requires PlainOps(ops) && Here(s, p, Items(OpList(ops, argsFirst)) + [Punct(']')])
    requires p + Len(Items(OpList(ops, argsFirst)) + [Punct(']')]) <= cend <= |s|
    ensures ParseFunctions(s, p, cend, Stored(d.id), d.name) == Entries(d, ops)
    decreases |ops|
  {
    hide Here, Len, Items, SkipObject, OpJson, Tokens, NextItem, ParseFunctions, Plain, PlainArgs;
    if ops == [] {
      NoItem(s, p);
      NoFunction(s, p, cend, Stored(d.id), d.name);
    } else {
      OpListPlain(ops, argsFirst);
      ItemStep(s, p, OpList(ops, argsFirst), cend);
      FunctionAt(s, p, ops[0], argsFirst, cend, Stored(d.id), d.name);
      assert OpList(ops, argsFirst)[1..] == OpList(ops[1..], argsFirst);
      FunctionsAt(s, NextItem(s, SkipObject(s, p), cend), d, ops[1..], argsFirst, cend);
    }
  }

  lemma NoFunction(s: string, p: nat, cend: nat, cid: nat, className: string)
    requires p < |s| && s[p] == ']' && cend <= |s|
    ensures ParseFunctions(s, p, cend, cid, className) == []
  {
  }

  // ---------------------------------------------------------------- classes

  lemma {:induction false} OpKeys(ops: seq<Op>, argsFirst: bool)
    ensures Key("class") !in Items(OpList(ops, argsFirst))
  {
    if ops != [] {
      OpKeys(ops[1..], argsFirst);
      NoClassIn(ops[0], argsFirst);
      hide Tokens, OpJson;
    }
  }

  lemma NoClassIn(op: Op, argsFirst: bool)
    ensures Key("class") !in Tokens(OpJson(op, argsFirst))
  {
    hide Tokens, OpJson, Items, ArgList, ArrayField;
    OpTokens(op, argsFirst);
    NoClassInArgs(op.args);
  }

  lemma NoClassInArgs(args: seq<Arg>)
    ensures Key("class") !in ArrayField("args", ArgList(args))
  {
    hide Items, ArgList;
    ArgKeys(args, "class");
  }

  function FunctionsField(d: Driver, argsFirst: bool): seq<Token> {
    ArrayField("functions", OpList(d.operations, argsFirst))
  }

  /** A class as printed: its name, its identifier and its functions. */
  function ClassHead(d: Driver): seq<Token> {
    [Punct('{')] + [Key("class")] + [Str(d.name)]
  }

  function ClassId(d: Driver): seq<Token> {
    [Key("id"), Num(d.id), Punct(',')]
  }

  lemma ClassTokens(d: Driver, argsFirst: bool)
    ensures Tokens(ClassJson(d, argsFirst)) ==
      ClassHead(d) + ([Punct(',')] + (ClassId(d) + (FunctionsField(d, argsFirst) + [Punct('}')])))
  {
    hide Items, ArrayField, OpList, Fields;
    var n, i := Field("class", JString(d.name)), Field("id", JNumber(d.id));
    var f := Field("functions", JArray(OpList(d.operations, argsFirst)));
    ThreeFields(n, i, f);
    ArrayFieldTokens("functions", OpList(d.operations, argsFirst));
    SimpleClassFields(d);
    hide FieldTokens;
  }

  lemma ThreeFields(n: Field, i: Field, x: Field)
    ensures Fields([n, i, x]) == FieldTokens(n) + [Punct(',')] + (FieldTokens(i) + [Punct(',')] + FieldTokens(x))
  {
    hide *;
    assert [n, i, x] == [n] + [i, x];
    FieldsOf(n, [i, x]);
    assert [i, x] == [i] + [x];
    FieldsOf(i, [x]);
    LastField(x);
  }

  lemma SimpleClassFields(d: Driver)
    ensures FieldTokens(Field("class", JString(d.name))) == [Key("class"), Str(d.name)]
    ensures FieldTokens(Field("id", JNumber(d.id))) == [Key("id"), Num(d.id)]
  {
  }

  /** The way through the body of the outer loop on which nothing is missing: the class name, the
      identifier at ip and the functions at farr, before cend. */
  lemma OneClass(s: string, cpos: nat, name: Text, ip: nat, farr: nat, cend: nat)
    requires MatchAt(s, CLASS_KEY, cpos) && name == ParseString(s, cpos + 8) && name.next <= |s|
    requires ip == Find(s, "\"id\":", name.next) && farr == Find(s, "\"functions\":[", ip)
    requires cend == var next := Find(s, CLASS_KEY, name.next); if next == Npos(s) then |s| else next
    requires cpos < cend <= |s| && ip < cend && farr < cend && ParseUint(s, ip + 5).Number?
    ensures ParseClass(s, cpos) ==
              ParseFunctions(s, SkipWs(s, farr + 13), cend, ParseUint(s, ip + 5).value, name.value)
              + ParseClasses(s, cend)
  {
    hide Find, ParseString, ParseUint, ParseFunctions, SkipWs, ParseClasses, MatchAt;
  }

  /** The class, its identifier and its functions, and where the next class begins. */
  lemma ClassAt(s: string, p: nat, d: Driver, argsFirst: bool, after: seq<Token>, cend: nat)
    requires Plain(d.name) && PlainOps(d.operations)
    requires Here(s, p, ClassHead(d) + ([Punct(',')] + (ClassId(d) + (FunctionsField(d, argsFirst) + after))))
    requires MatchAt(s, CLASS_KEY, p + 1)
    requires var next := Find(s, CLASS_KEY, p + Len(ClassHead(d)));
      cend == if next == Npos(s) then |s| else next
    requires p + Len(ClassHead(d) + ([Punct(',')] + (ClassId(d) + FunctionsField(d, argsFirst)))) <= cend <= |s|
    ensures ParseClass(s, p + 1) == Entries(d, d.operations) + ParseClasses(s, cend)
  {
    hide *;
    var tail := FunctionsField(d, argsFirst) + after;
    var q := p + Len(ClassHead(d));
    Move(s, p, ClassHead(d), [Punct(',')] + (ClassId(d) + tail));
    HeadAt(s, p, d);
    Move(s, q, [Punct(',')], ClassId(d) + tail);
    ClassIdAt(s, q, d, tail);
    ClassLengths(s, p, d, FunctionsField(d, argsFirst), after);
    Names();
    NoFunctionsKey(d);
    OpListPlain(d.operations, argsFirst);
    FunctionsFieldIs(d, argsFirst);
    Assoc(ClassId(d), FunctionsField(d, argsFirst), after);
    ArrayAt(s, q + 1, ClassId(d), "functions", OpList(d.operations, argsFirst), after);
    FunctionsAt(s, q + 1 + Len(ClassId(d)) + 13, d, d.operations, argsFirst, cend);
    var name := ParseString(s, p + 9);
    var ip := Find(s, "\"id\":", name.next);
    OneClass(s, p + 1, name, ip, Find(s, "\"functions\":[", ip), cend);
  }

  lemma FunctionsFieldIs(d: Driver, argsFirst: bool)
    ensures FunctionsField(d, argsFirst) == ArrayField("functions", OpList(d.operations, argsFirst))
  {
  }

  lemma NoFunctionsKey(d: Driver)
    ensures AllOk(ClassId(d)) && Key("functions") !in ClassId(d)
  {
    Names();
  }

  lemma HeadAt(s: string, p: nat, d: Driver)
    requires Here(s, p, ClassHead(d)) && Plain(d.name)
    ensures ParseString(s, p + 9) == Text(p + Len(ClassHead(d)), d.name)
  {
    hide Here, Len, Plain, ParseString;
    var before := [Punct('{')] + [Key("class")];
    Move(s, p, before, [Str(d.name)]);
    RenderConcat([Punct('{')], [Key("class")]);
    One(s, p, Punct('{'));
    One(s, p, Key("class"));
    WantedLength("class");
    BeforeClass();
    ParseStr(s, p + 9, d.name);
  }

  lemma BeforeClass()
    ensures Len([Punct('{')] + [Key("class")]) == 9
  {
    RenderConcat([Punct('{')], [Key("class")]);
    One("", 0, Punct('{'));
    One("", 0, Key("class"));
  }

  lemma ClassIdAt(s: string, q: nat, d: Driver, rest: seq<Token>)
    requires Here(s, q, [Punct(',')] + (ClassId(d) + rest))
    ensures Find(s, "\"id\":", q) == q + 1 && ParseUint(s, q + 6) == Number(Stored(d.id)) && Len([Punct(',')]) == 1
  {
    hide Here, Len, Find, ParseUint, Stored;
    Assoc([Punct(',')], ClassId(d), rest);
    One(s, q, Punct(','));
    IdAt(s, q, [Punct(',')], d.id, rest);
  }

  lemma LenConcat(a: seq<Token>, b: seq<Token>)
    ensures Len(a + b) == Len(a) + Len(b)
  {
    RenderConcat(a, b);
  }

  lemma PunctLength(c: char)
    ensures |Show(Punct(c))| == 1
  {
  }

  lemma ClassLengths(s: string, p: nat, d: Driver, f: seq<Token>, after: seq<Token>)
    requires Here(s, p, ClassHead(d) + ([Punct(',')] + (ClassId(d) + (f + after))))
    ensures Len(ClassHead(d) + ([Punct(',')] + (ClassId(d) + f))) == Len(ClassHead(d)) + 1 + Len(ClassId(d) + f)
    ensures Here(s, p + Len(ClassHead(d)) + 1, ClassId(d) + f + after)
  {
    hide Here, Len, ClassHead, ClassId;
    LenConcat(ClassHead(d), [Punct(',')] + (ClassId(d) + f));
    LenConcat([Punct(',')], ClassId(d) + f);
    One(s, p, Punct(','));
    PunctLength(',');
    Move(s, p, ClassHead(d), [Punct(',')] + (ClassId(d) + (f + after)));
    PunctAt(s, p + Len(ClassHead(d)), ',', ClassId(d) + (f + after));
    Assoc(ClassId(d), f, after);
  }

  /** The tokens of a class up to the key of the next one. */
  lemma NextClassAt(s: string, p: nat, d: Driver, argsFirst: bool, more: seq<Token>)
    requires PlainOps(d.operations)
    requires Here(s, p, ClassHead(d) + ([Punct(',')] + (ClassId(d) + (FunctionsField(d, argsFirst) + more))))
    requires AllOk(more) && Key("class") !in more
    ensures var q := p + Len(ClassHead(d));
      var a := [Punct(',')] + (ClassId(d) + (FunctionsField(d, argsFirst) + more));
      Here(s, q, a) && AllOk(a) && Key("class") !in a
  {
    hide Here, Len, ArrayField, PlainOps;
    Move(s, p, ClassHead(d), [Punct(',')] + (ClassId(d) + (FunctionsField(d, argsFirst) + more)));
    Names();
    FunctionsFieldOk(d, argsFirst);
    hide FunctionsField, IsName;
  }

  lemma FunctionsFieldOk(d: Driver, argsFirst: bool)
    requires PlainOps(d.operations)
    ensures AllOk(FunctionsField(d, argsFirst)) && Key("class") !in FunctionsField(d, argsFirst)
  {
    hide PlainOps, OpList, Items, Balanced;
    Names();
    OpListPlain(d.operations, argsFirst);
    ItemsBalanced(OpList(d.operations, argsFirst));
    OpKeys(d.operations, argsFirst);
  }

  /** The printed array of classes from class d on. */
  lemma ClassesTokens(ds: seq<Driver>, argsFirst: bool)
    requires ds != []
    ensures var d, more := ds[0], [Punct('}')] + Left(ClassList(ds[1..], false));
      Items(ClassList(ds, argsFirst)) + [Punct(']')] ==
        ClassHead(d) + ([Punct(',')] + (ClassId(d) + (FunctionsField(d, argsFirst) + more)))
  {
    var d, left := ds[0], Left(ClassList(ds[1..], false));
    var f := FunctionsField(d, argsFirst);
    ListUnfold(ds, argsFirst);
    hide *;
    ItemsLeft(ClassList(ds, argsFirst));
    ClassTokens(d, argsFirst);
    Assoc4(ClassHead(d), [Punct(',')], ClassId(d), f, [Punct('}')], left);
  }

  lemma ListUnfold(ds: seq<Driver>, argsFirst: bool)
    requires ds != []
    ensures var l := ClassList(ds, argsFirst);
      l != [] && l[0] == ClassJson(ds[0], argsFirst) && l[1..] == ClassList(ds[1..], false)
  {
  }

  lemma Assoc4(a: seq<Token>, b: seq<Token>, c: seq<Token>, d: seq<Token>, e: seq<Token>, f: seq<Token>)
    ensures a + (b + (c + (d + e))) + f == a + (b + (c + (d + (e + f))))
  {
    Assoc(d, e, f);
    Assoc(c, d + e, f);
    Assoc(b, c + (d + e), f);
    Assoc(a, b + (c + (d + e)), f);
  }

  /** From the start of a printed class on, parse_ops returns the operations of it and of all that
      follow. */
  lemma {:induction false} ClassesAt(s: string, p: nat, ds: seq<Driver>, argsFirst: bool)
    requires ds != [] && PlainDrivers(ds)
    requires Here(s, p, Items(ClassList(ds, argsFirst)) + [Punct(']')])
    requires p + Len(Items(ClassList(ds, argsFirst)) + [Punct(']')]) == |s|
    ensures MatchAt(s, CLASS_KEY, p + 1) && ParseClass(s, p + 1) == Flatten(ds)
    decreases |ds|
  {
    hide *;
    var d, rest := ds[0], ds[1..];
    PlainFirst(ds);
    ClassesTokens(ds, argsFirst);
    var more := [Punct('}')] + Left(ClassList(rest, false));
    ClassKeyAt(s, p, d, [Punct(',')] + (ClassId(d) + (FunctionsField(d, argsFirst) + more)));
    if rest == [] {
      LastClass(s, p, d, argsFirst, rest);
      Nothing(Entries(d, d.operations));
    } else {
      var cend := ClassBefore(s, p, d, argsFirst, rest);
      ClassesAt(s, cend - 1, rest, false);
      FromKey(s, cend);
    }
    FlattenFirst(ds);
  }

  lemma PlainFirst(ds: seq<Driver>)
    requires ds != [] && PlainDrivers(ds)
    ensures Plain(ds[0].name) && PlainOps(ds[0].operations) && PlainDrivers(ds[1..])
  {
  }

  lemma FlattenFirst(ds: seq<Driver>)
    requires ds != []
    ensures Flatten(ds) == Entries(ds[0], ds[0].operations) + Flatten(ds[1..])
    ensures Flatten([]) == []
  {
  }

  lemma FromKey(s: string, p: nat)
    requires MatchAt(s, CLASS_KEY, p)
    ensures p <= |s| && ParseClasses(s, p) == ParseClass(s, p)
  {
    hide ParseClass;
  }

  lemma ClassKeyAt(s: string, p: nat, d: Driver, rest: seq<Token>)
    requires Here(s, p, ClassHead(d) + rest)
    ensures MatchAt(s, CLASS_KEY, p + 1)
  {
    hide Here, Len, Show, Wanted;
    Move(s, p, ClassHead(d), rest);
    Assoc([Punct('{')], [Key("class")], [Str(d.name)]);
    Move(s, p, [Punct('{')], [Key("class")] + [Str(d.name)]);
    Move(s, p + Len([Punct('{')]), [Key("class")], [Str(d.name)]);
    One(s, p, Punct('{'));
    PunctLength('{');
    One(s, p + 1, Key("class"));
    WantedLength("class");
    StrStart(s, p + 1 + 8, d.name);
    WantedHere(s, p + 1, "class", "\"");
    Names();
  }

  lemma Nothing<T>(x: seq<T>)
    ensures x + [] == x
  {
  }

  lemma LastClass(s: string, p: nat, d: Driver, argsFirst: bool, rest: seq<Driver>)
    requires Plain(d.name) && PlainOps(d.operations) && MatchAt(s, CLASS_KEY, p + 1) && rest == []
    requires var ts := ClassHead(d) + ([Punct(',')] + (ClassId(d) + (FunctionsField(d, argsFirst)
                         + ([Punct('}')] + Left(ClassList(rest, false))))));
      Here(s, p, ts) && p + Len(ts) == |s|
    ensures ParseClass(s, p + 1) == Entries(d, d.operations)
  {
    hide *;
    var more := [Punct('}')] + Left(ClassList(rest, false));
    var a := [Punct(',')] + (ClassId(d) + (FunctionsField(d, argsFirst) + more));
    LeftEmpty(rest);
    NextClassAt(s, p, d, argsFirst, more);
    LenConcat(ClassHead(d), a);
    Names();
    FindNothing(s, p + Len(ClassHead(d)), a, "class", "\"");
    ShorterTail(s, p, d, FunctionsField(d, argsFirst), more);
    ClassAt(s, p, d, argsFirst, more, |s|);
    EndOfText(s);
  }

  lemma LeftEmpty(rest: seq<Driver>)
    requires rest == []
    ensures var more := [Punct('}')] + Left(ClassList(rest, false)); AllOk(more) && Key("class") !in more
  {
  }

  lemma EndOfText(s: string)
    ensures ParseClasses(s, |s|) == []
  {
  }

  lemma BodyMore(d: Driver, f: seq<Token>, more: seq<Token>)
    ensures ClassHead(d) + ([Punct(',')] + (ClassId(d) + (f + more))) ==
      ClassHead(d) + ([Punct(',')] + (ClassId(d) + f)) + more
  {
    hide *;
    Assoc(ClassId(d), f, more);
    Assoc([Punct(',')], ClassId(d) + f, more);
    Assoc(ClassHead(d), [Punct(',')] + (ClassId(d) + f), more);
  }

  lemma ShorterTail(s: string, p: nat, d: Driver, f: seq<Token>, more: seq<Token>)
    ensures Len(ClassHead(d) + ([Punct(',')] + (ClassId(d) + f))) <=
      Len(ClassHead(d) + ([Punct(',')] + (ClassId(d) + (f + more))))
  {
    hide *;
    BodyMore(d, f, more);
    LenConcat(ClassHead(d) + ([Punct(',')] + (ClassId(d) + f)), more);
  }

  /** A class with another one behind it: the end is the key of the next. */
  lemma ClassBefore(s: string, p: nat, d: Driver, argsFirst: bool, rest: seq<Driver>) returns (cend: nat)
    requires Plain(d.name) && PlainOps(d.operations) && MatchAt(s, CLASS_KEY, p + 1) && rest != []
    requires var ts := ClassHead(d) + ([Punct(',')] + (ClassId(d) + (FunctionsField(d, argsFirst)
                         + ([Punct('}')] + Left(ClassList(rest, false))))));
      Here(s, p, ts) && p + Len(ts) == |s|
    ensures 0 < cend <= |s| && ParseClass(s, p + 1) == Entries(d, d.operations) + ParseClasses(s, cend)
    ensures var ts := Items(ClassList(rest, false)) + [Punct(']')]; Here(s, cend - 1, ts) && cend - 1 + Len(ts) == |s|
  {
    hide *;
    var f, n := FunctionsField(d, argsFirst), Items(ClassList(rest, false)) + [Punct(']')];
    var body := ClassHead(d) + ([Punct(',')] + (ClassId(d) + f));
    LeftIs(rest);
    BodyMore(d, f, [Punct('}')] + ([Punct(',')] + n));
    Move(s, p, body, [Punct('}')] + ([Punct(',')] + n));
    PunctAt(s, p + Len(body), '}', [Punct(',')] + n);
    PunctAt(s, p + Len(body) + 1, ',', n);
    cend := p + Len(body) + 3;
    ClassesTokens(rest, false);
    var next := [Punct(',')] + (ClassId(rest[0]) + (FunctionsField(rest[0], false)
                  + ([Punct('}')] + Left(ClassList(rest[1..], false)))));
    ClassKeyAt(s, cend - 1, rest[0], next);
    NextClass(s, p, d, argsFirst, rest[0], next);
    MatchLength(s, cend);
    Names();
    ClassAt(s, p, d, argsFirst, [Punct('}')] + ([Punct(',')] + n), cend);
  }

  lemma MatchLength(s: string, p: nat)
    requires MatchAt(s, CLASS_KEY, p)
    ensures p < |s| && Npos(s) == |s| + 1
  {
  }

  lemma LeftIs(rest: seq<Driver>)
    requires rest != []
    ensures Left(ClassList(rest, false)) == [Punct(',')] + (Items(ClassList(rest, false)) + [Punct(']')])
  {
    hide Items;
    Assoc([Punct(',')], Items(ClassList(rest, false)), [Punct(']')]);
  }

  lemma NextClass(s: string, p: nat, d: Driver, argsFirst: bool, e: Driver, next: seq<Token>)
    requires PlainOps(d.operations)
    requires Here(s, p, ClassHead(d) + ([Punct(',')] + (ClassId(d) + (FunctionsField(d, argsFirst)
                          + ([Punct('}')] + ([Punct(',')] + (ClassHead(e) + next)))))))
    requires MatchAt(s, CLASS_KEY,
                     p + Len(ClassHead(d) + ([Punct(',')] + (ClassId(d) + FunctionsField(d, argsFirst)))) + 3)
    ensures Find(s, CLASS_KEY, p + Len(ClassHead(d))) ==
      p + Len(ClassHead(d) + ([Punct(',')] + (ClassId(d) + FunctionsField(d, argsFirst)))) + 3
  {
    hide *;
    var f := FunctionsField(d, argsFirst);
    var more := [Punct('}'), Punct(','), Punct('{')];
    var n := [Key("class")] + [Str(e.name)] + next;
    NextHead(e, next);
    BodyMore(d, f, more + n);
    BodyMore(d, f, more);
    Assoc(ClassHead(d) + ([Punct(',')] + (ClassId(d) + f)), more, n);
    Move(s, p, ClassHead(d) + ([Punct(',')] + (ClassId(d) + (f + more))), n);
    ThreePuncts();
    NextClassAt(s, p, d, argsFirst, more);
    LenConcat(ClassHead(d) + ([Punct(',')] + (ClassId(d) + f)), more);
    LenConcat(ClassHead(d), [Punct(',')] + (ClassId(d) + (f + more)));
    Names();
    FindMatch(s, p + Len(ClassHead(d)), [Punct(',')] + (ClassId(d) + (f + more)), "class", "\"");
  }

  lemma NextHead(e: Driver, next: seq<Token>)
    ensures [Punct('}')] + ([Punct(',')] + (ClassHead(e) + next)) ==
      [Punct('}'), Punct(','), Punct('{')] + ([Key("class")] + [Str(e.name)] + next)
  {
  }

  lemma ThreePuncts()
    ensures var more := [Punct('}'), Punct(','), Punct('{')]; Len(more) == 3 && AllOk(more) && Key("class") !in more
  {
    assert [Punct('}'), Punct(','), Punct('{')] == [Punct('}')] + ([Punct(',')] + [Punct('{')]);
    LenConcat([Punct(',')], [Punct('{')]);
    LenConcat([Punct('}')], [Punct(',')] + [Punct('{')]);
    One("", 0, Punct('}'));
    One("", 0, Punct(','));
    One("", 0, Punct('{'));
  }

  /** parse_ops inverts get_json: for every list of drivers whose names and types need no escape,
      it returns the operations of KServer and of all drivers, in order. */
  lemma ParseOpsInvertsGetJson(drivers: seq<Driver>)
    requires PlainDrivers(drivers)
    ensures ParseClasses(GetJson(drivers), 0) == Flatten([KServer()] + drivers)
  {
    hide *;
    var ds, s := [KServer()] + drivers, GetJson(drivers);
    var items := Items(ClassList(ds, true)) + [Punct(']')];
    JsonIs(drivers);
    AllPlain(drivers);
    PunctAt(s, 0, '[', items);
    ClassesAt(s, 1, ds, true);
    FirstClass(s, drivers);
  }

  lemma AllPlain(drivers: seq<Driver>)
    requires PlainDrivers(drivers)
    ensures PlainDrivers([KServer()] + drivers)
  {
    assert Plain("KServer") && Plain("get_version") && Plain("const char *");
    assert Plain("get_cmds") && Plain("std::string");
    hide Plain;
    assert PlainArgs([]);
    assert PlainOps(KServer().operations);
    hide PlainOps;
  }

  lemma JsonIs(drivers: seq<Driver>)
    ensures var ts := [Punct('[')] + (Items(ClassList([KServer()] + drivers, true)) + [Punct(']')]);
      Here(GetJson(drivers), 0, ts) && Len(ts) == |GetJson(drivers)|
  {
    hide Items, ClassList;
    Assoc([Punct('[')], Items(ClassList([KServer()] + drivers, true)), [Punct(']')]);
  }

  /** The first class is found from the start of the text. */
  lemma FirstClass(s: string, drivers: seq<Driver>)
    requires Here(s, 0, [Punct('[')] + (Items(ClassList([KServer()] + drivers, true)) + [Punct(']')]))
    requires MatchAt(s, CLASS_KEY, 2)
    ensures ParseClasses(s, 0) == ParseClass(s, 2)
  {
    hide *;
    var ds := [KServer()] + drivers;
    ClassesTokens(ds, true);
    var tail := [Punct(',')] + (ClassId(ds[0]) + (FunctionsField(ds[0], true)
                  + ([Punct('}')] + Left(ClassList(ds[1..], false)))));
    var before := [Punct('['), Punct('{')];
    FirstHead(ds[0], tail);
    Move(s, 0, before, [Key("class")] + [Str(ds[0].name)] + tail);
    TwoPuncts();
    Names();
    FindMatch(s, 0, before, "class", "\"");
    StartOf(s);
  }

  lemma FirstHead(e: Driver, tail: seq<Token>)
    ensures [Punct('[')] + (ClassHead(e) + tail) ==
      [Punct('['), Punct('{')] + ([Key("class")] + [Str(e.name)] + tail)
  {
  }

  lemma TwoPuncts()
    ensures var b := [Punct('['), Punct('{')]; Len(b) == 2 && AllOk(b) && Key("class") !in b
  {
    assert [Punct('['), Punct('{')] == [Punct('[')] + [Punct('{')];
    LenConcat([Punct('[')], [Punct('{')]);
    One("", 0, Punct('['));
    One("", 0, Punct('{'));
  }

  lemma StartOf(s: string)
    requires Find(s, CLASS_KEY, 0) == 2 && MatchAt(s, CLASS_KEY, 2)
    ensures ParseClasses(s, 0) == ParseClass(s, 2)
  {
    hide Find, ParseClass;
  }
}
