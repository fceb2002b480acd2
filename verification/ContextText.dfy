/** The context as it is printed, character by character, and the entries that the parser makes of
    it, in literal terms. */
module ContextText {
  import opened JsonText
  import opened JsonPrinter
  import opened ContextJson
  import ContextParser

  // ---------------------------------------------------------------- the printed text

  function Text(s: string): string {
    "\"" + s + "\""
  }

  function ArgText(a: Arg): string {
    "{" + ("\"name\":" + Text(a.name) + "," + ("\"type\":" + Text(a.typeName))) + "}"
  }

  function ArgTexts(args: seq<Arg>): string {
    if args == [] then "" else if |args| == 1 then ArgText(args[0]) else ArgText(args[0]) + "," + ArgTexts(args[1..])
  }

  /** An operation; those of KServer have their arguments before the type. */
  function OpText(op: Op, argsFirst: bool): string {
    var args, ret := "\"args\":" + ("[" + ArgTexts(op.args) + "]"), "\"ret_type\":" + Text(op.retType);
    "{" + ("\"name\":" + Text(op.name) + "," + ("\"id\":" + Decimal(op.id) + ","
           + if argsFirst then args + "," + ret else ret + "," + args)) + "}"
  }

  function OpTexts(ops: seq<Op>, argsFirst: bool): string {
    if ops == [] then ""
    else if |ops| == 1 then OpText(ops[0], argsFirst)
    else OpText(ops[0], argsFirst) + "," + OpTexts(ops[1..], argsFirst)
  }

  function ClassText(d: Driver, argsFirst: bool): string {
    "{" + ("\"class\":" + Text(d.name) + "," + ("\"id\":" + Decimal(d.id) + ","
           + ("\"functions\":" + ("[" + OpTexts(d.operations, argsFirst) + "]")))) + "}"
  }

  function ClassTexts(ds: seq<Driver>): string {
    if ds == [] then ""
    else if |ds| == 1 then ClassText(ds[0], false)
    else ClassText(ds[0], false) + "," + ClassTexts(ds[1..])
  }

  const GET_VERSION_TEXT :=
    "{" + ("\"name\":" + "\"get_version\"" + "," + ("\"id\":" + "0" + ","
           + ("\"args\":" + "[]" + "," + ("\"ret_type\":" + "\"const char *\"")))) + "}"

  const GET_CMDS_TEXT :=
    "{" + ("\"name\":" + "\"get_cmds\"" + "," + ("\"id\":" + "1" + ","
           + ("\"args\":" + "[]" + "," + ("\"ret_type\":" + "\"std::string\"")))) + "}"

  const KSERVER_TEXT :=
    "{" + ("\"class\":" + "\"KServer\"" + "," + ("\"id\":" + "1" + ","
           + ("\"functions\":" + ("[" + (GET_VERSION_TEXT + "," + GET_CMDS_TEXT) + "]")))) + "}"

  // ---------------------------------------------------------------- printing, piece by piece

  lemma Dumped(v: Json)
    ensures Render(Tokens(v)) == Dumps(v)
  {
  }

  lemma OneToken(t: Token)
    ensures Render([t]) == Show(t)
  {
    assert [t][1..] == [];
  }

  lemma DumpsField(f: Field)
    ensures Render(FieldTokens(f)) == Quoted(f.key) + ":" + Dumps(f.value)
  {
    hide Quoted;
    RenderConcat([Key(f.key)], Tokens(f.value));
    OneToken(Key(f.key));
    hide Render;
  }

  lemma DumpsObject(fields: seq<Field>)
    ensures Dumps(JObject(fields)) == "{" + Render(Fields(fields)) + "}"
  {
    Bracketed('{', Fields(fields), '}');
    hide Render;
  }

  lemma DumpsArray(items: seq<Json>)
    ensures Dumps(JArray(items)) == "[" + Render(Items(items)) + "]"
  {
    Bracketed('[', Items(items), ']');
    hide Render;
  }

  lemma Bracketed(a: char, ts: seq<Token>, b: char)
    ensures Render([Punct(a)] + ts + [Punct(b)]) == [a] + Render(ts) + [b]
  {
    hide Render;
    RenderConcat([Punct(a)] + ts, [Punct(b)]);
    RenderConcat([Punct(a)], ts);
    OneToken(Punct(a));
    OneToken(Punct(b));
  }

  lemma LastField(f: Field)
    ensures Render(Fields([f])) == Quoted(f.key) + ":" + Dumps(f.value)
  {
    hide Render, Quoted;
    DumpsField(f);
  }

  lemma FirstField(f: Field, more: seq<Field>)
    requires more != []
    ensures Render(Fields([f] + more)) == Quoted(f.key) + ":" + Dumps(f.value) + "," + Render(Fields(more))
  {
    hide Render, Quoted, Dumps;
    assert ([f] + more)[1..] == more;
    RenderConcat(FieldTokens(f) + [Punct(',')], Fields(more));
    RenderConcat(FieldTokens(f), [Punct(',')]);
    OneToken(Punct(','));
    DumpsField(f);
  }

  lemma NoItems()
    ensures Render(Items([])) == ""
  {
  }

  lemma LastItem(v: Json)
    ensures Render(Items([v])) == Dumps(v)
  {
    hide Render;
  }

  lemma FirstItem(v: Json, more: seq<Json>)
    requires more != []
    ensures Render(Items([v] + more)) == Dumps(v) + "," + Render(Items(more))
  {
    hide Render;
    assert ([v] + more)[1..] == more;
    RenderConcat(Tokens(v) + [Punct(',')], Items(more));
    RenderConcat(Tokens(v), [Punct(',')]);
    OneToken(Punct(','));
  }

  lemma DumpsString(s: string)
    ensures Dumps(JString(s)) == Text(s)
  {
    OneToken(Str(s));
  }

  lemma DumpsNumber(n: nat)
    ensures Dumps(JNumber(n)) == Decimal(n)
  {
    hide Decimal;
    OneToken(Num(n));
  }

  lemma Keys()
    ensures Quoted("name") + ":" == "\"name\":" && Quoted("type") + ":" == "\"type\":"
    ensures Quoted("id") + ":" == "\"id\":" && Quoted("ret_type") + ":" == "\"ret_type\":"
    ensures Quoted("args") + ":" == "\"args\":" && Quoted("class") + ":" == "\"class\":"
    ensures Quoted("functions") + ":" == "\"functions\":"
  {
  }

  // ---------------------------------------------------------------- the objects

  lemma ArgPrinted(a: Arg)
    ensures Dumps(ArgJson(a)) == ArgText(a)
  {
    hide Dumps, Fields, Render, Quoted, Text;
    var x, y := Field("name", JString(a.name)), Field("type", JString(a.typeName));
    assert [x] + [y] == [x, y];
    DumpsObject([x, y]);
    FirstField(x, [y]);
    LastField(y);
    DumpsString(a.name);
    DumpsString(a.typeName);
    Keys();
  }

  lemma {:induction false} ArgsPrinted(args: seq<Arg>)
    ensures Render(Items(ArgList(args))) == ArgTexts(args)
  {
    hide Render, Items, ArgJson, ArgText, Dumps;
    if args == [] {
      NoItems();
    } else {
      var more := ArgList(args[1..]);
      assert ArgList(args) == [ArgJson(args[0])] + more;
      ArgPrinted(args[0]);
      ArgsPrinted(args[1..]);
      if |args| == 1 {
        assert more == [] && [ArgJson(args[0])] + [] == [ArgJson(args[0])];
        LastItem(ArgJson(args[0]));
      } else {
        FirstItem(ArgJson(args[0]), more);
      }
    }
  }

  lemma OpPrinted(op: Op, argsFirst: bool)
    ensures Dumps(OpJson(op, argsFirst)) == OpText(op, argsFirst)
  {
    hide Dumps, Fields, Render, ArgTexts, ArgList, Decimal, Quoted, Text;
    var n, i := Field("name", JString(op.name)), Field("id", JNumber(op.id));
    var r, a := Field("ret_type", JString(op.retType)), Field("args", JArray(ArgList(op.args)));
    var x, y := if argsFirst then a else r, if argsFirst then r else a;
    FourFields(n, i, x, y);
    assert OpJson(op, argsFirst) == JObject([n, i] + [x, y]);
    DumpsString(op.name);
    DumpsNumber(op.id);
    DumpsString(op.retType);
    DumpsArray(ArgList(op.args));
    ArgsPrinted(op.args);
    Keys();
  }

  lemma FourFields(a: Field, b: Field, c: Field, d: Field)
    ensures Dumps(JObject([a, b] + [c, d])) ==
            "{" + (Quoted(a.key) + ":" + Dumps(a.value) + "," + (Quoted(b.key) + ":" + Dumps(b.value) + ","
                   + (Quoted(c.key) + ":" + Dumps(c.value) + "," + (Quoted(d.key) + ":" + Dumps(d.value))))) + "}"
  {
    hide Dumps, Fields, Render, Quoted;
    assert [a, b] + [c, d] == [a] + [b, c, d] && [b, c, d] == [b] + [c, d] && [c, d] == [c] + [d];
    DumpsObject([a] + [b, c, d]);
    FirstField(a, [b, c, d]);
    FirstField(b, [c, d]);
    FirstField(c, [d]);
    LastField(d);
  }

  lemma {:induction false} OpsPrinted(ops: seq<Op>, argsFirst: bool)
    ensures Render(Items(OpList(ops, argsFirst))) == OpTexts(ops, argsFirst)
  {
    hide Render, Items, OpJson, OpText, Dumps;
    if ops == [] {
      NoItems();
    } else {
      var more := OpList(ops[1..], argsFirst);
      assert OpList(ops, argsFirst) == [OpJson(ops[0], argsFirst)] + more;
      OpPrinted(ops[0], argsFirst);
      OpsPrinted(ops[1..], argsFirst);
      if |ops| == 1 {
        assert more == [] && [OpJson(ops[0], argsFirst)] + [] == [OpJson(ops[0], argsFirst)];
        LastItem(OpJson(ops[0], argsFirst));
      } else {
        FirstItem(OpJson(ops[0], argsFirst), more);
      }
    }
  }

  lemma ClassPrinted(d: Driver, argsFirst: bool)
    ensures Dumps(ClassJson(d, argsFirst)) == ClassText(d, argsFirst)
  {
    hide Dumps, Fields, Render, OpTexts, OpList, Decimal, Quoted, Text;
    var c, i := Field("class", JString(d.name)), Field("id", JNumber(d.id));
    var f := Field("functions", JArray(OpList(d.operations, argsFirst)));
    ThreeFields(c, i, f);
    DumpsString(d.name);
    DumpsNumber(d.id);
    DumpsArray(OpList(d.operations, argsFirst));
    OpsPrinted(d.operations, argsFirst);
    Keys();
  }

  lemma ThreeFields(a: Field, b: Field, c: Field)
    ensures Dumps(JObject([a, b, c])) ==
            "{" + (Quoted(a.key) + ":" + Dumps(a.value) + "," + (Quoted(b.key) + ":" + Dumps(b.value) + ","
                   + (Quoted(c.key) + ":" + Dumps(c.value)))) + "}"
  {
    hide Dumps, Fields, Render, Quoted;
    assert [a, b, c] == [a] + [b, c] && [b, c] == [b] + [c];
    DumpsObject([a] + [b, c]);
    FirstField(a, [b, c]);
    FirstField(b, [c]);
    LastField(c);
  }

  lemma {:induction false} ClassesPrinted(ds: seq<Driver>)
    ensures Render(Items(ClassList(ds, false))) == ClassTexts(ds)
  {
    hide Render, Items, ClassJson, ClassText, Dumps;
    if ds == [] {
      NoItems();
    } else {
      var more := ClassList(ds[1..], false);
      assert ClassList(ds, false) == [ClassJson(ds[0], false)] + more;
      ClassPrinted(ds[0], false);
      ClassesPrinted(ds[1..]);
      if |ds| == 1 {
        assert more == [] && [ClassJson(ds[0], false)] + [] == [ClassJson(ds[0], false)];
        LastItem(ClassJson(ds[0], false));
      } else {
        FirstItem(ClassJson(ds[0], false), more);
      }
    }
  }

  lemma Literals()
    ensures Text("get_version") == "\"get_version\"" && Text("const char *") == "\"const char *\""
    ensures Text("get_cmds") == "\"get_cmds\"" && Text("std::string") == "\"std::string\""
    ensures Text("KServer") == "\"KServer\"" && "[" + ArgTexts([]) + "]" == "[]"
    ensures Decimal(0) == "0" && Decimal(1) == "1"
  {
  }

  lemma KServerOps()
    ensures OpText(Op("get_version", 0, "const char *", []), true) == GET_VERSION_TEXT
    ensures OpText(Op("get_cmds", 1, "std::string", []), true) == GET_CMDS_TEXT
  {
    Literals();
    hide Text, ArgTexts, Decimal;
  }

  lemma KServerText()
    ensures ClassText(KServer(), true) == KSERVER_TEXT
  {
    Literals();
    KServerOps();
    hide OpText, Text, Decimal, ArgTexts, GET_VERSION_TEXT, GET_CMDS_TEXT;
    var ops := KServer().operations;
    assert ops[1..] == [ops[1]];
    assert OpTexts(ops, true) == OpText(ops[0], true) + "," + OpText(ops[1], true);
    hide OpTexts;
  }

  /** What get_json prints, for all drivers. */
  lemma GetJsonText(drivers: seq<Driver>)
    ensures GetJson(drivers) ==
            "[" + (if drivers == [] then KSERVER_TEXT else KSERVER_TEXT + "," + ClassTexts(drivers)) + "]"
  {
    hide Dumps, Render, Items, ClassJson, ClassText, ClassTexts, KServer;
    var first, more := ClassJson(KServer(), true), ClassList(drivers, false);
    assert ([KServer()] + drivers)[1..] == drivers;
    assert ClassList([KServer()] + drivers, true) == [first] + more;
    DumpsArray([first] + more);
    ClassPrinted(KServer(), true);
    KServerText();
    if drivers == [] {
      assert [first] + more == [first];
      LastItem(first);
    } else {
      FirstItem(first, more);
      ClassesPrinted(drivers);
    }
  }

  // ---------------------------------------------------------------- the entries

  /** The entry of an operation, in numbers: sixteen bits for its driver, sixteen for itself. */
  lemma EntryIs(d: Driver, op: Op)
    requires d.id < 0x1_0000 && op.id < 0x1_0000
    ensures Entry(d, op) == OpEntry(0x1_0000 * d.id + op.id, d.id, op.id, d.name, op.name, op.retType, TypesOf(op.args))
    ensures |TypesOf(op.args)| == |op.args|
    ensures forall i :: 0 <= i < |op.args| ==> TypesOf(op.args)[i] == op.args[i].typeName
  {
    hide OpId, TypesOf, Stored;
    ContextParser.OpIdIs(d.id, op.id);
    TypesAt(op.args);
  }

  lemma {:induction false} TypesAt(args: seq<Arg>)
    ensures |TypesOf(args)| == |args| && forall i :: 0 <= i < |args| ==> TypesOf(args)[i] == args[i].typeName
  {
    if args != [] {
      TypesAt(args[1..]);
    }
  }

  /** The two operations that every instrument has come first. */
  lemma FirstEntries(drivers: seq<Driver>)
    requires PlainDrivers(drivers)
    ensures ParseClasses(GetJson(drivers), 0) ==
            [OpEntry(65536, 1, 0, "KServer", "get_version", "const char *", []),
             OpEntry(65537, 1, 1, "KServer", "get_cmds", "std::string", [])] + Flatten(drivers)
  {
    hide ParseClasses, GetJson, PlainDrivers, Flatten;
    ParseOpsInvertsGetJson(drivers);
    KServerEntries();
    FlattenFirst([KServer()] + drivers);
    assert ([KServer()] + drivers)[1..] == drivers;
  }

  lemma KServerEntries()
    ensures Entries(KServer(), KServer().operations) ==
            [OpEntry(65536, 1, 0, "KServer", "get_version", "const char *", []),
             OpEntry(65537, 1, 1, "KServer", "get_cmds", "std::string", [])]
  {
    EntryIs(KServer(), KServer().operations[0]);
    EntryIs(KServer(), KServer().operations[1]);
    hide Entry;
    assert KServer().operations[1..][1..] == [];
  }
}
