/** json.dumps with compact separators, as server/__init__.py calls it, for strings that need no
    escape; and skip_object on what it prints. */
module JsonPrinter {
  import opened JsonText

  datatype Json = JString(text: string) | JNumber(n: nat) | JArray(items: seq<Json>) | JObject(fields: seq<Field>)

  datatype Field = Field(key: string, value: Json)

  ghost predicate PlainStrings(v: Json)
    decreases v
  {
    match v
    case JString(text) => Plain(text)
    case JNumber(_) => true
    case JArray(items) => forall i :: 0 <= i < |items| ==> PlainStrings(items[i])
    case JObject(fields) => forall i :: 0 <= i < |fields| ==> Plain(fields[i].key) && PlainStrings(fields[i].value)
  }

  function Tokens(v: Json): seq<Token>
    decreases v
  {
    match v
    case JString(text) => [Str(text)]
    case JNumber(n) => [Num(n)]
    case JArray(items) => [Punct('[')] + Items(items) + [Punct(']')]
    case JObject(fields) => [Punct('{')] + Fields(fields) + [Punct('}')]
  }

  function Items(items: seq<Json>): seq<Token>
    decreases items
  {
    if items == [] then []
    else if |items| == 1 then Tokens(items[0])
    else Tokens(items[0]) + [Punct(',')] + Items(items[1..])
  }

  function Fields(fields: seq<Field>): seq<Token>
    decreases fields
  {
    if fields == [] then []
    else if |fields| == 1 then FieldTokens(fields[0])
    else FieldTokens(fields[0]) + [Punct(',')] + Fields(fields[1..])
  }

  function FieldTokens(f: Field): seq<Token>
    decreases f
  {
    [Key(f.key)] + Tokens(f.value)
  }

  /** json.dumps(v, separators=(',', ':')) */
  function Dumps(v: Json): string {
    Render(Tokens(v))
  }

  // ---------------------------------------------------------------- brackets

  lemma {:induction false} TokensBalanced(v: Json)
    requires PlainStrings(v)
    ensures Balanced(Tokens(v), 0) && AllOk(Tokens(v))
    decreases v
  {
    hide Balanced;
    match v
    case JString(_) => NoBrackets(Tokens(v));
    case JNumber(_) => NoBrackets(Tokens(v));
    case JArray(items) =>
      ItemsBalanced(items);
      Bracketed(Punct('['), Items(items), Punct(']'));
    case JObject(fields) =>
      FieldsBalanced(fields);
      Bracketed(Punct('{'), Fields(fields), Punct('}'));
  }

  lemma NoBrackets(ts: seq<Token>)
    requires |ts| == 1 && Depth(ts[0]) == 0
    ensures Balanced(ts, 0)
  {
    assert Balanced(ts[1..], 0);
  }

  lemma Bracketed(open: Token, ts: seq<Token>, close: Token)
    requires Balanced(ts, 0) && Depth(open) == 1 && Depth(close) == -1
    ensures Balanced([open] + ts + [close], 0)
  {
    BalancedClose(ts, close, 0);
    assert ([open] + ts + [close])[1..] == ts + [close];
  }

  lemma Joined(a: seq<Token>, b: seq<Token>)
    requires Balanced(a, 0) && Balanced(b, 0)
    ensures Balanced(a + [Punct(',')] + b, 0)
  {
    NoBrackets([Punct(',')]);
    BalancedConcat(a, [Punct(',')], 0);
    BalancedConcat(a + [Punct(',')], b, 0);
  }

  lemma {:induction false} ItemsBalanced(items: seq<Json>)
    requires forall i :: 0 <= i < |items| ==> PlainStrings(items[i])
    ensures Balanced(Items(items), 0) && AllOk(Items(items))
    decreases items
  {
    if items == [] {
    } else {
      hide Balanced;
      TokensBalanced(items[0]);
      if |items| > 1 {
        ItemsBalanced(items[1..]);
        Joined(Tokens(items[0]), Items(items[1..]));
      }
    }
  }

  lemma {:induction false} FieldsBalanced(fields: seq<Field>)
    requires forall i :: 0 <= i < |fields| ==> Plain(fields[i].key) && PlainStrings(fields[i].value)
    ensures Balanced(Fields(fields), 0) && AllOk(Fields(fields))
    decreases fields
  {
    if fields == [] {
    } else {
      hide Balanced;
      FieldBalanced(fields[0]);
      if |fields| > 1 {
        FieldsBalanced(fields[1..]);
        Joined(FieldTokens(fields[0]), Fields(fields[1..]));
      }
    }
  }

  lemma {:induction false} FieldBalanced(f: Field)
    requires Plain(f.key) && PlainStrings(f.value)
    ensures Balanced(FieldTokens(f), 0) && AllOk(FieldTokens(f))
    decreases f
  {
    hide Balanced;
    TokensBalanced(f.value);
    NoBrackets([Key(f.key)]);
    BalancedConcat([Key(f.key)], Tokens(f.value), 0);
  }

  /** skip_object jumps over exactly the one printed array or object that starts at p, however
      deeply nested, with brackets in its strings or not, and whatever follows. */
  lemma SkipObjectSkipsValue(s: string, p: nat, v: Json)
    requires v.JArray? || v.JObject?
    requires PlainStrings(v) && Here(s, p, Tokens(v))
    ensures SkipObject(s, p) == p + |Dumps(v)|
  {
    hide Balanced;
    match v
    case JArray(items) =>
      ItemsBalanced(items);
      SkipBalanced(s, p, Punct('['), Items(items), Punct(']'));
    case JObject(fields) =>
      FieldsBalanced(fields);
      SkipBalanced(s, p, Punct('{'), Fields(fields), Punct('}'));
  }
}
