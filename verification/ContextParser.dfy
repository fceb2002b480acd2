/** The loops of op_detail in server/client/koheron-client.hpp over the downloaded context, and the
    table built from it. */
module ContextParser {
  import opened BinaryDigits
  import opened ContextJson
  import opened JsonText

  /** parse_string */
  method ReadText(json: string, pos: nat) returns (next: nat, out: string)
    ensures Text(next, out) == ParseString(json, pos)
  {
    if pos >= |json| || json[pos] != '"' {
      return Npos(json), "";
    }
    var raw := "";
    var i := pos + 1;
    while i < |json|
      invariant ReadString(json, i, raw) == ReadString(json, pos + 1, "")
    {
      if json[i] == '\\' && i + 1 < |json| {
        raw := raw + [json[i + 1]];
        i := i + 2;
        continue;
      }
      if json[i] == '"' {
        return i + 1, raw;
      }
      raw := raw + [json[i]];
      i := i + 1;
    }
    return Npos(json), "";
  }

  /** skip_ws */
  method SkipSpaces(json: string, pos: nat) returns (p: nat)
    ensures p == SkipWs(json, pos)
  {
    p := pos;
    while p < |json| && IsWs(json[p])
      invariant SkipWs(json, p) == SkipWs(json, pos)
    {
      p := p + 1;
    }
  }

  /** skip_object */
  method SkipNested(json: string, pos: nat) returns (r: nat)
    ensures r == SkipObject(json, pos)
  {
    var depth, inString, escaped := 0, false, false;
    var i := pos;
    while i < |json|
      invariant Scan(json, i, depth, inString, escaped) == SkipObject(json, pos)
    {
      var c := json[i];
      if inString {
        if escaped {
          escaped := false;
        } else if c == '\\' {
          escaped := true;
        } else if c == '"' {
          inString := false;
        }
        i := i + 1;
        continue;
      }
      if c == '"' {
        inString := true;
      } else if c == '{' || c == '[' {
        depth := depth + 1;
      } else if c == '}' || c == ']' {
        depth := depth - 1;
        if depth == 0 {
          return i + 1;
        }
      }
      i := i + 1;
    }
    return Npos(json);
  }

  lemma StringAfterUnfold(s: string, key: string, from: nat, end: nat)
    requires key != ""
    ensures var p := Find(s, key, from);
      StringAfter(s, key, from, end) == if p < end then ParseString(s, p + |key| - 1).value else ""
  {
  }

  lemma NextItemUnfold(s: string, oend: nat, end: nat)
    requires oend <= |s| && end <= |s|
    ensures var p := SkipWs(s, oend);
      NextItem(s, oend, end) == if p < end && s[p] == ',' then SkipWs(s, p + 1) else p
  {
  }

  lemma OpArgsUnfold(s: string, start: nat, end: nat)
    requires end <= |s|
    ensures var ap := Find(s, "\"args\":[", start);
      OpArgs(s, start, end) == if ap >= end then [] else ArgTypes(s, SkipWs(s, ap + 8), end)
  {
    hide Find, ArgTypes, SkipWs;
  }

  lemma ArgTypesUnfold(s: string, p: nat, end: nat)
    requires end <= |s|
    ensures ArgTypes(s, p, end) ==
      if p >= end || s[p] != '{' || SkipObject(s, p) == Npos(s) || SkipObject(s, p) > end then []
      else [StringAfter(s, "\"type\":\"", p, SkipObject(s, p))] + ArgTypes(s, NextItem(s, SkipObject(s, p), end), end)
  {
    hide SkipObject, StringAfter, NextItem;
  }

  /** The search for a key and the reading of its string, as fill_op_extras does both times. */
  method ReadAfter(json: string, key: string, from: nat, end: nat) returns (out: string)
    requires key != ""
    ensures out == StringAfter(json, key, from, end)
  {
    hide *;
    StringAfterUnfold(json, key, from, end);
    out := "";
    var p := Find(json, key, from);
    if p < end {
      var next: nat;
      next, out := ReadText(json, p + |key| - 1);
      NextOf(json, p + |key| - 1, next, out);
    }
  }

  /** Past the end of an object and the comma behind it. */
  method SkipItem(json: string, oend: nat, end: nat) returns (p: nat)
    requires oend <= |json| && end <= |json|
    ensures p == NextItem(json, oend, end)
  {
    hide *;
    NextItemUnfold(json, oend, end);
    p := SkipSpaces(json, oend);
    if p < end && json[p] == ',' {
      p := SkipSpaces(json, p + 1);
    }
  }

  /** fill_op_extras: the return type and the argument types of the function object in
      [start, end). */
  method FillOpExtras(json: string, start: nat, end: nat) returns (retType: string, args: seq<string>)
    requires end <= |json|
    ensures retType == StringAfter(json, "\"ret_type\":\"", start, end) && args == OpArgs(json, start, end)
  {
    hide *;
    args := [];
    retType := ReadAfter(json, "\"ret_type\":\"", start, end);
    OpArgsUnfold(json, start, end);
    var ap := Find(json, "\"args\":[", start);
    if ap >= end {
      return;
    }
    var p := SkipSpaces(json, ap + 8);
    while p < end && json[p] == '{'
      invariant args + ArgTypes(json, p, end) == OpArgs(json, start, end)
      decreases |json| - p
    {
      ArgTypesUnfold(json, p, end);
      var oend := SkipNested(json, p);
      if oend == Npos(json) || oend > end {
        break;
      }
      var t := ReadAfter(json, "\"type\":\"", p, oend);
      args := args + [t];
      p := SkipItem(json, oend, end);
    }
    ArgTypesUnfold(json, p, end);
  }

  lemma FunctionsUnfold(s: string, p: nat, cend: nat, cid: nat, className: string)
    requires cend <= |s|
    ensures var oend, name := SkipObject(s, p), ParseString(s, p + 8);
      var ip := Find(s, "\"id\":", name.next);
      ParseFunctions(s, p, cend, cid, className) ==
        if p >= cend || s[p] != '{' || oend == Npos(s) || oend > cend || name.next == Npos(s) || ip >= oend
           || ParseUint(s, ip + 5).NoNumber? then []
        else
          var fid := ParseUint(s, ip + 5).value;
          [OpEntry(OpId(cid, fid), cid % 0x1_0000, fid % 0x1_0000, className, name.value,
                   StringAfter(s, "\"ret_type\":\"", name.next, oend), OpArgs(s, name.next, oend))]
          + ParseFunctions(s, NextItem(s, oend, cend), cend, cid, className)
  {
    hide SkipObject, ParseString, Find, ParseUint, StringAfter, OpArgs, OpId, NextItem;
  }

  /** The loop of parse_ops over the function objects of a class. */
  method AddFunctions(json: string, start: nat, cend: nat, cid: nat, className: string) returns (ops: seq<OpEntry>)
    requires cend <= |json|
    ensures ops == ParseFunctions(json, start, cend, cid, className)
  {
    hide *;
    ops := [];
    var p := start;
    while p < cend && json[p] == '{'
      invariant ops + ParseFunctions(json, p, cend, cid, className) == ParseFunctions(json, start, cend, cid, className)
      decreases |json| - p
    {
      FunctionsUnfold(json, p, cend, cid, className);
      var oend := SkipNested(json, p);
      if oend == Npos(json) || oend > cend {
        break;
      }
      var afterName, funcName := ReadText(json, p + 8);
      NextOf(json, p + 8, afterName, funcName);
      if afterName == Npos(json) {
        break;
      }
      var ip := Find(json, "\"id\":", afterName);
      if ip >= oend {
        break;
      }
      var fid := ParseUint(json, ip + 5);
      if fid.NoNumber? {
        break;
      }
      var retType, args := FillOpExtras(json, afterName, oend);
      ops := ops + [OpEntry(OpId(cid, fid.value), cid % 0x1_0000, fid.value % 0x1_0000, className, funcName,
                            retType, args)];
      p := SkipItem(json, oend, cend);
    }
    FunctionsUnfold(json, p, cend, cid, className);
  }

  lemma NextOf(s: string, pos: nat, next: nat, value: string)
    requires Text(next, value) == ParseString(s, pos)
    ensures ParseString(s, pos).next == next && ParseString(s, pos).value == value
  {
  }

  lemma ClassesUnfold(s: string, pos: nat)
    requires pos <= |s|
    ensures var cpos := Find(s, CLASS_KEY, pos);
      ParseClasses(s, pos) == if cpos == Npos(s) then [] else ParseClass(s, cpos)
  {
    hide Find, ParseClass;
  }

  lemma ClassUnfold(s: string, cpos: nat)
    requires MatchAt(s, CLASS_KEY, cpos)
    ensures cpos + 9 <= |s|
    ensures var name := ParseString(s, cpos + 8);
      var next, ip := Find(s, CLASS_KEY, name.next), Find(s, "\"id\":", name.next);
      var cend := if next == Npos(s) then |s| else next;
      var farr := Find(s, "\"functions\":[", ip);
      ParseClass(s, cpos) ==
        if name.next == Npos(s) then ParseClasses(s, cpos + 9)
        else if ip >= cend || ParseUint(s, ip + 5).NoNumber? then []
        else if farr >= cend then ParseClasses(s, cend)
        else
          ParseFunctions(s, SkipWs(s, farr + 13), cend, ParseUint(s, ip + 5).value, name.value)
          + ParseClasses(s, cend)
  {
    hide Find, ParseString, ParseUint, ParseFunctions, SkipWs, ParseClasses;
  }

  /** parse_ops */
  method ParseOps(json: string) returns (ops: seq<OpEntry>)
    ensures ops == ParseClasses(json, 0)
  {
    hide *;
    ops := [];
    var pos := 0;
    while true
      invariant pos <= |json| && ops + ParseClasses(json, pos) == ParseClasses(json, 0)
      decreases |json| - pos
    {
      ClassesUnfold(json, pos);
      var cpos := Find(json, CLASS_KEY, pos);
      if cpos == Npos(json) {
        break;
      }
      ClassUnfold(json, cpos);
      var afterName, className := ReadText(json, cpos + 8);
      NextOf(json, cpos + 8, afterName, className);
      if afterName == Npos(json) {
        pos := cpos + 9;
        continue;
      }
      var nextClass := Find(json, CLASS_KEY, afterName);
      var cend := if nextClass == Npos(json) then |json| else nextClass;
      var cidPos := Find(json, "\"id\":", afterName);
      if cidPos >= cend {
        break;
      }
      var cid := ParseUint(json, cidPos + 5);
      if cid.NoNumber? {
        break;
      }
      var farr := Find(json, "\"functions\":[", cidPos);
      if farr >= cend {
        pos := cend;
        continue;
      }
      var p := SkipSpaces(json, farr + 13);
      var es := AddFunctions(json, p, cend, cid.value, className);
      ops := ops + es;
      pos := cend;
    }
  }

  // ---------------------------------------------------------------- OpTable

  datatype Option<T> = None | Some(value: T)

  class OpTable {
    var ops: seq<OpEntry>
    var index: map<nat, nat>   // identifier to position in ops

    /** The index holds the first position of every identifier. */
    ghost predicate Valid()
      reads this
    {
      && (forall id :: id in index ==> index[id] < |ops| && ops[index[id]].id == id)
      && (forall j :: 0 <= j < |ops| ==> ops[j].id in index && index[ops[j].id] <= j)
    }

    /** build */
    constructor (json: string)
      ensures Valid() && ops == ParseClasses(json, 0)
    {
      ops, index := [], map[];
      new;
      hide ParseClasses;
      ops := ParseOps(json);
      for i := 0 to |ops|
        invariant ops == ParseClasses(json, 0)
        invariant forall id :: id in index ==> index[id] < i && ops[index[id]].id == id
        invariant forall j :: 0 <= j < i ==> ops[j].id in index && index[ops[j].id] <= j
      {
        if ops[i].id !in index {
          index := index[ops[i].id := i];
        }
      }
    }

    /** find: the first operation with the identifier. */
    method Find(id: nat) returns (op: Option<OpEntry>)
      requires Valid()
      ensures op.None? <==> forall j :: 0 <= j < |ops| ==> ops[j].id != id
      ensures op.Some? ==> exists i :: 0 <= i < |ops| && ops[i] == op.value && ops[i].id == id
                                        && forall j :: 0 <= j < i ==> ops[j].id != id
    {
      if id !in index {
        return None;
      }
      return Some(ops[index[id]]);
    }

    /** by_name: the first operation that is called "Class::func", or "func" in any class. */
    method ByName(classFunc: string) returns (op: Option<OpEntry>)
      ensures op.None? <==> forall j :: 0 <= j < |ops| ==> !Named(ops[j], classFunc)
      ensures op.Some? ==> exists i :: 0 <= i < |ops| && ops[i] == op.value && Named(ops[i], classFunc)
                                        && forall j :: 0 <= j < i ==> !Named(ops[j], classFunc)
    {
      hide JsonText.Find;
      var sep := JsonText.Find(classFunc, "::", 0);
      for i := 0 to |ops|
        invariant forall j :: 0 <= j < i ==> !Named(ops[j], classFunc)
      {
        if sep == Npos(classFunc) {
          if ops[i].funcName == classFunc {
            return Some(ops[i]);
          }
        } else if ops[i].className == classFunc[..sep] && ops[i].funcName == classFunc[sep + 2..] {
          return Some(ops[i]);
        }
      }
      return None;
    }
  }

  ghost predicate Named(op: OpEntry, name: string) {
    var sep := Find(name, "::", 0);
    if sep == Npos(name) then op.funcName == name
    else op.className == name[..sep] && op.funcName == name[sep + 2..]
  }

  /** "Class::operation" names the operation of that class, and a name without colons every
      operation of that name. */
  lemma NamedIs(op: OpEntry, className: string, funcName: string)
    requires (forall k :: 0 <= k < |className| ==> className[k] != ':')
    ensures Named(op, className + "::" + funcName) <==> op.className == className && op.funcName == funcName
    ensures (forall k :: 0 <= k < |funcName| ==> funcName[k] != ':') ==>
              (Named(op, funcName) <==> op.funcName == funcName)
  {
    var name := className + "::" + funcName;
    SeparatorAt(className, funcName);
    assert name[..|className|] == className && name[|className| + 2..] == funcName;
    if forall k :: 0 <= k < |funcName| ==> funcName[k] != ':' {
      NoSeparator(funcName);
    }
    hide Find;
  }

  lemma SeparatorAt(x: string, y: string)
    requires forall k :: 0 <= k < |x| ==> x[k] != ':'
    ensures Find(x + "::" + y, "::", 0) == |x|
  {
    var s := x + "::" + y;
    assert s[|x|..|x| + 2] == "::";
    assert MatchAt(s, "::", |x|);
    ColonAt(s, Find(s, "::", 0));
  }

  lemma ColonAt(s: string, p: nat)
    ensures MatchAt(s, "::", p) ==> p + 1 < |s| && s[p] == ':'
  {
    if MatchAt(s, "::", p) {
      assert s[p] == s[p..p + 2][0];
    }
  }

  lemma NoSeparator(s: string)
    requires forall k :: 0 <= k < |s| ==> s[k] != ':'
    ensures Find(s, "::", 0) == Npos(s)
  {
    ColonAt(s, Find(s, "::", 0));
  }

  // ---------------------------------------------------------------- identifiers

  /** Driver identifiers apart, operation identifiers apart within a driver, both in 16 bits. */
  predicate Numbered(ds: seq<Driver>) {
    && (forall i :: 0 <= i < |ds| ==> ds[i].id < 0x1_0000 && NumberedOps(ds[i].operations))
    && forall i, j :: 0 <= i < j < |ds| ==> ds[i].id != ds[j].id
  }

  predicate NumberedOps(ops: seq<Op>) {
    && (forall i :: 0 <= i < |ops| ==> ops[i].id < 0x1_0000)
    && forall i, j :: 0 <= i < j < |ops| ==> ops[i].id != ops[j].id
  }

  lemma {:induction false} OrZero(x: nat)
    ensures Or(x, 0) == x
  {
    if x > 0 {
      OrZero(x / 2);
    }
  }

  /** Or with a number below the lowest set bit adds. */
  lemma {:induction false} OrAdds(k: nat, c: nat, f: nat)
    requires f < Pow2(k)
    ensures Or(Pow2(k) * c, f) == Pow2(k) * c + f
  {
    if k == 0 {
      OrZero(c);
    } else {
      var x := Pow2(k - 1) * c;
      assert Pow2(k) * c == 2 * x;
      OrAdds(k - 1, c, f / 2);
    }
  }

  lemma OpIdIs(c: nat, f: nat)
    requires c < 0x1_0000 && f < 0x1_0000
    ensures OpId(Stored(c), Stored(f)) == 0x1_0000 * c + f && Stored(c) == c && Stored(f) == f
  {
    hide Or, Pow2;
    SixteenBits();
    OrAdds(16, c, f);
  }

  lemma SixteenBits()
    ensures Pow2(16) == 0x1_0000
  {
    assert Pow2(4) == 0x10;
    assert Pow2(8) == 0x100;
    assert Pow2(12) == 0x1000;
  }

  lemma {:induction false} EntriesAre(d: Driver, ops: seq<Op>)
    ensures |Entries(d, ops)| == |ops|
    ensures forall i :: 0 <= i < |ops| ==> Entries(d, ops)[i] == Entry(d, ops[i])
  {
    if ops != [] {
      EntriesAre(d, ops[1..]);
    }
  }

  /** Every flattened operation carries the identifier of a listed driver. */
  lemma {:induction false} IdOfDriver(ds: seq<Driver>, k: nat) returns (i: nat)
    requires Numbered(ds) && k < |Flatten(ds)|
    ensures i < |ds| && Flatten(ds)[k].id / 0x1_0000 == ds[i].id
  {
    hide *;
    FlattenAt(ds, k);
    var d, n := ds[0], |ds[0].operations|;
    NumberedFirst(ds);
    if k < n {
      EntryId(d, d.operations[k]);
      i := 0;
    } else {
      var i' := IdOfDriver(ds[1..], k - n);
      i := i' + 1;
    }
  }

  /** One flattened operation: of the first driver, or of the others. */
  lemma FlattenAt(ds: seq<Driver>, k: nat)
    requires k < |Flatten(ds)|
    ensures ds != [] && |Flatten(ds)| == |ds[0].operations| + |Flatten(ds[1..])|
    ensures var d, n := ds[0], |ds[0].operations|;
            Flatten(ds)[k] == if k < n then Entry(d, d.operations[k]) else Flatten(ds[1..])[k - n]
  {
    hide Entry;
    EntriesAre(ds[0], ds[0].operations);
  }

  lemma NumberedFirst(ds: seq<Driver>)
    requires Numbered(ds) && ds != []
    ensures Numbered(ds[1..]) && ds[0].id < 0x1_0000
    ensures forall i :: 0 <= i < |ds[1..]| ==> ds[1..][i].id != ds[0].id
    ensures forall i :: 0 <= i < |ds[0].operations| ==> ds[0].operations[i].id < 0x1_0000
    ensures forall i, j :: 0 <= i < j < |ds[0].operations| ==> ds[0].operations[i].id != ds[0].operations[j].id
  {
  }

  lemma EntryId(d: Driver, op: Op)
    requires d.id < 0x1_0000 && op.id < 0x1_0000
    ensures Entry(d, op).id == 0x1_0000 * d.id + op.id && Entry(d, op).id / 0x1_0000 == d.id
  {
    hide OpId, Stored;
    OpIdIs(d.id, op.id);
  }

  /** No two operations of the context share an identifier, so the table finds each of them. */
  lemma {:induction false} IdsAreDistinct(ds: seq<Driver>, i: nat, j: nat)
    requires Numbered(ds) && i < j < |Flatten(ds)|
    ensures Flatten(ds)[i].id != Flatten(ds)[j].id
  {
    hide *;
    FlattenAt(ds, i);
    FlattenAt(ds, j);
    var d, n := ds[0], |ds[0].operations|;
    NumberedFirst(ds);
    if i >= n {
      IdsAreDistinct(ds[1..], i - n, j - n);
    } else {
      EntryId(d, d.operations[i]);
      if j < n {
        EntryId(d, d.operations[j]);
      } else {
        var other := IdOfDriver(ds[1..], j - n);
      }
    }
  }

  /** In a table built from the printed context every operation is found under its identifier. */
  lemma TableFindsEach(table: OpTable, drivers: seq<Driver>, k: nat)
    requires PlainDrivers(drivers) && Numbered([KServer()] + drivers)
    requires table.Valid() && table.ops == ParseClasses(GetJson(drivers), 0) && k < |table.ops|
    ensures table.ops[k].id in table.index && table.index[table.ops[k].id] == k
  {
    hide ParseClasses, GetJson, Flatten, PlainDrivers, Numbered;
    ParseOpsInvertsGetJson(drivers);
    var first := table.index[table.ops[k].id];
    if first < k {
      IdsAreDistinct([KServer()] + drivers, first, k);
    }
  }
}
