/** The spellings of the types that travel between client and instrument, and what canonical_type of
    server/client/koheron-client.hpp makes of them. */
module TypeSpellings {
  import opened CanonicalType
  import opened JsonText
  import opened TypeWords

  // ---------------------------------------------------------------- types and their spellings

  datatype Type = Basic(scalar: Scalar) | String | Vector(elem: Type) | Array(elem: Type, count: nat)

  /** The canonical spelling. */
  function Canon(t: Type): string {
    match t
    case Basic(s) => Name(s)
    case String => "std::string"
    case Vector(elem) => VECTOR + Canon(elem) + ">"
    case Array(elem, count) => ARRAY + Canon(elem) + ", " + Decimal(count) + ">"
  }

  /** A written type: spaces before it, spaces and references behind it. A scalar is given by its
      instrument name or by words of C++, a vector may name further template arguments, an array
      size may have a suffix. */
  datatype Spelled = Spelled(before: string, core: Core, after: string)

  datatype Core =
    | Fixed(scalar: Scalar)
    | Words(words: seq<Specifier>)
    | StdString
    | BasicString(cxx11: bool, arguments: string)
    | Vec(elem: Spelled, extra: string)
    | Arr(elem: Spelled, gap: string, count: nat, suffix: string, tail: string)

  function Written(sp: Spelled): string {
    sp.before + CoreText(sp.core) + sp.after
  }

  function CoreText(c: Core): string {
    match c
    case Fixed(s) => Name(s)
    case Words(words) => Join(words)
    case StdString => "std::string"
    case BasicString(cxx11, arguments) => (if cxx11 then CXX11 else STD) + "basic_string<" + arguments
    case Vec(elem, extra) => VECTOR + Written(elem) + extra + ">"
    case Arr(elem, gap, count, suffix, tail) =>
      ARRAY + Written(elem) + "," + (gap + (Decimal(count) + (suffix + tail))) + ">"
  }

  /** The type that is meant. */
  function Meaning(sp: Spelled): Type
    requires Well(sp)
  {
    CoreMeaning(sp.core)
  }

  function CoreMeaning(c: Core): Type
    requires WellCore(c)
  {
    match c
    case Fixed(s) => Basic(s)
    case Words(words) => Basic(CppScalar(words).scalar)
    case StdString => String
    case BasicString(_, _) => String
    case Vec(elem, _) => Vector(Meaning(elem))
    case Arr(elem, _, count, _, _) => Array(Meaning(elem), count)
  }

  /** The words at the scalars are ones that the table understands. */
  predicate AllUnderstood(sp: Spelled) {
    match sp.core
    case Words(words) => Understood(words)
    case Vec(elem, _) => AllUnderstood(elem)
    case Arr(elem, _, _, _, _) => AllUnderstood(elem)
    case _ => true
  }

  /** The spelling with its scalars as the table has them, and nothing but the types. */
  function Form(sp: Spelled): string {
    match sp.core
    case Fixed(s) => Name(s)
    case Words(words) => WordForm(words)
    case StdString => "std::string"
    case BasicString(_, _) => "std::string"
    case Vec(elem, _) => VECTOR + Form(elem) + ">"
    case Arr(elem, _, count, _, _) => ARRAY + Form(elem) + ", " + Decimal(count) + ">"
  }

  predicate AllWs(s: string) {
    forall i :: 0 <= i < |s| ==> IsWs(s[i])
  }

  predicate AllRefOrWs(s: string) {
    forall i :: 0 <= i < |s| ==> IsRefOrWs(s[i])
  }

  predicate IsSuffix(s: string) {
    forall i :: 0 <= i < |s| ==> s[i] == 'u' || s[i] == 'l'
  }

  /** The bracket depth behind s when it is d before, as split_top counts it; -1 if s holds a quote,
      a comma at depth 0, or closes more than is open. */
  function Passes(s: string, d: nat): int {
    if s == "" then d
    else
      var c := s[0];
      if c == '"' then -1
      else if c == '<' || c == '(' then Passes(s[1..], d + 1)
      else if c == '>' || c == ')' then if d == 0 then -1 else Passes(s[1..], d - 1)
      else if c == ',' && d == 0 then -1
      else Passes(s[1..], d)
  }

  predicate Well(sp: Spelled) {
    AllWs(sp.before) && WellCore(sp.core) && AllRefOrWs(sp.after)
  }

  predicate WellCore(c: Core) {
    match c
    case Fixed(_) => true
    case Words(words) => CppScalar(words).Known?
    case StdString => true
    case BasicString(_, arguments) => Passes(arguments, 1) == 0 && arguments != "" && arguments[|arguments| - 1] == '>'
    case Vec(elem, extra) => Well(elem) && (extra != "" ==> extra[0] == ',') && Passes(extra, 1) == 1
    case Arr(elem, gap, count, suffix, tail) => Well(elem) && AllWs(gap) && IsSuffix(suffix) && AllWs(tail)
  }

  // ---------------------------------------------------------------- split_top

  lemma {:induction false} PassesConcat(a: string, b: string, d: nat)
    requires Passes(a, d) >= 0
    ensures Passes(a + b, d) == Passes(b, Passes(a, d))
  {
    if a == "" {
      assert a + b == b;
    } else {
      assert (a + b)[1..] == a[1..] + b;
      var c := a[0];
      PassesConcat(a[1..], b, if c == '<' || c == '(' then d + 1 else if c == '>' || c == ')' then d - 1 else d);
    }
  }

  /** More open brackets around do no harm. */
  lemma {:induction false} PassesDeeper(s: string, d: nat)
    requires Passes(s, d) >= 0
    ensures Passes(s, d + 1) == Passes(s, d) + 1
  {
    if s != "" {
      var c := s[0];
      PassesDeeper(s[1..], if c == '<' || c == '(' then d + 1 else if c == '>' || c == ')' then d - 1 else d);
    }
  }

  predicate Neutral(s: string) {
    forall i :: 0 <= i < |s| ==> s[i] != '"' && s[i] != '<' && s[i] != '(' && s[i] != '>' && s[i] != ')' && s[i] != ','
  }

  lemma {:induction false} NeutralPasses(s: string, d: nat)
    requires Neutral(s)
    ensures Passes(s, d) == d
  {
    if s != "" {
      NeutralPasses(s[1..], d);
    }
  }

  /** split_top does not cut inside what passes, and collects it. */
  lemma {:induction false} SplitPasses(a: string, b: string, cur: string, d: nat)
    requires Passes(a, d) >= 0
    ensures Split(a + b, cur, d, false) == Split(b, cur + a, Passes(a, d), false)
  {
    if a == "" {
      assert a + b == b && cur + a == cur;
    } else {
      assert (a + b)[1..] == a[1..] + b;
      var c := a[0];
      assert cur + a == cur + [c] + a[1..];
      SplitPasses(a[1..], b, cur + [c],
                  if c == '<' || c == '(' then d + 1 else if c == '>' || c == ')' then d - 1 else d);
    }
  }

  /** The first part ends at the first comma outside brackets, if there is one. */
  lemma FirstPart(a: string, rest: string)
    requires Passes(a, 0) == 0 && (rest != "" ==> rest[0] == ',')
    ensures SplitTop(a + rest)[0] == a
  {
    SplitPasses(a, rest, "", 0);
    assert "" + a == a;
  }

  lemma TwoParts(a: string, b: string)
    requires Passes(a, 0) == 0 && Passes(b, 0) == 0
    ensures SplitTop(a + "," + b) == [a, b]
  {
    hide Passes, Split;
    SplitPasses(a, "," + b, "", 0);
    assert a + "," + b == a + ("," + b) && "" + a == a;
    SplitPasses(b, "", "", 0);
    assert b + "" == b && "" + b == b;
    AtComma(a, b);
  }

  lemma AtComma(cur: string, b: string)
    ensures Split("," + b, cur, 0, false) == [cur] + Split(b, "", 0, false)
    ensures Split("", cur, 0, false) == [cur] && Split("", b, 0, false) == [b]
  {
    assert ("," + b)[1..] == b;
  }

  // ---------------------------------------------------------------- replace_all

  predicate InPattern(c: char) {
    c == 's' || c == 't' || c == 'd' || c == ':' || c == '_' || c == 'c' || c == 'x' || c == '1'
  }

  /** No occurrence of the pattern can lie across the end of a. */
  predicate Apart(a: string, b: string) {
    a == "" || b == "" || !InPattern(a[|a| - 1]) || !InPattern(b[0])
  }

  lemma PatternAt(s: string, i: nat)
    requires CXX11 <= s && i < |CXX11|
    ensures InPattern(s[i])
    ensures s[4] == ':' && s[5] == '_'
  {
    assert s[i] == CXX11[i] && s[4] == CXX11[4] && s[5] == CXX11[5];
  }

  lemma NotAcross(a: string, b: string)
    requires Apart(a, b) && a != "" && CXX11 <= a + b
    ensures CXX11 <= a && (a + b)[|CXX11|..] == a[|CXX11|..] + b
  {
    var n := |CXX11|;
    if |a| < n {
      PatternAt(a + b, |a| - 1);
      PatternAt(a + b, |a|);
    } else {
      assert CXX11 == (a + b)[..n] == a[..n];
    }
  }

  lemma {:induction false} ReplacedConcat(a: string, b: string)
    requires Apart(a, b)
    ensures Replaced(a + b) == Replaced(a) + Replaced(b)
    decreases |a|
  {
    hide *;
    if a == "" {
      assert a + b == b;
      ReplacedEmpty();
    } else {
      ReplacedStep(a);
      ReplacedStep(a + b);
      if CXX11 <= a + b {
        NotAcross(a, b);
        ApartTail(a, b, |CXX11|);
        ReplacedConcat(a[|CXX11|..], b);
        Regroup(STD, Replaced(a[|CXX11|..]), Replaced(b));
      } else {
        NotBefore(a, b);
        ApartTail(a, b, 1);
        ReplacedConcat(a[1..], b);
        Regroup([a[0]], Replaced(a[1..]), Replaced(b));
      }
    }
  }

  lemma Regroup(x: string, y: string, z: string)
    ensures x + (y + z) == x + y + z
  {
  }

  lemma NotBefore(a: string, b: string)
    requires a != "" && !(CXX11 <= a + b)
    ensures !(CXX11 <= a) && (a + b)[0] == a[0] && (a + b)[1..] == a[1..] + b
  {
  }

  lemma ApartTail(a: string, b: string, n: nat)
    requires Apart(a, b) && n <= |a|
    ensures Apart(a[n..], b)
  {
  }

  /** Text without a colon before an underscore is left alone. */
  predicate NoColonUnderscore(s: string) {
    forall i :: 0 <= i < |s| - 1 ==> !(s[i] == ':' && s[i + 1] == '_')
  }

  lemma {:induction false} ReplacedSame(s: string)
    requires NoColonUnderscore(s)
    ensures Replaced(s) == s
  {
    if s != "" {
      if CXX11 <= s {
        PatternAt(s, 0);
      }
      assert forall i :: 0 <= i < |s[1..]| ==> s[1..][i] == s[i + 1];
      ReplacedSame(s[1..]);
      assert s == [s[0]] + s[1..];
    }
  }

  lemma ReplacedPattern()
    ensures Replaced(CXX11) == STD
  {
    assert CXX11[|CXX11|..] == "";
  }

  /** Replacing changes neither brackets nor commas. */
  lemma {:induction false} ReplacedPasses(s: string, d: nat)
    requires Passes(s, d) >= 0
    ensures Passes(Replaced(s), d) == Passes(s, d)
    decreases |s|
  {
    if s == "" {
    } else if CXX11 <= s {
      var rest := s[|CXX11|..];
      assert s == CXX11 + rest;
      PatternsPass(d);
      PassesConcat(CXX11, rest, d);
      ReplacedPasses(rest, d);
      PassesConcat(STD, Replaced(rest), d);
    } else {
      var c := s[0];
      var r := Replaced(s[1..]);
      assert ([c] + r)[1..] == r;
      ReplacedPasses(s[1..], if c == '<' || c == '(' then d + 1 else if c == '>' || c == ')' then d - 1 else d);
    }
  }

  lemma PatternsPass(d: nat)
    ensures Passes(CXX11, d) == d && Passes(STD, d) == d
  {
    NeutralPasses(CXX11, d);
    NeutralPasses(STD, d);
  }

  // ---------------------------------------------------------------- spellings

  lemma WordIsPlain(w: string)
    requires IsWord(w)
    ensures Neutral(w) && NoColonUnderscore(w) && !IsWs(w[0]) && !IsRefOrWs(w[|w| - 1])
  {
  }

  lemma {:induction false} DecimalIsNeutral(n: nat)
    ensures Neutral(Decimal(n)) && NoColonUnderscore(Decimal(n))
  {
    var d := Decimal(n);
    assert forall i :: 0 <= i < |d| ==> IsDigit(d[i]);
  }

  lemma PrefixesPass(d: nat)
    ensures Passes(VECTOR, d) == d + 1 && Passes(ARRAY, d) == d + 1 && Passes(">", d + 1) == d
    ensures Passes("std::string", d) == d && Passes("basic_string<", d) == d + 1
  {
    hide *;
    VectorPasses(d);
    ArrayPasses(d);
    StringPasses(d);
    SinglePasses(d);
  }

  lemma SinglePasses(d: nat)
    ensures Passes("<", d) == d + 1 && Passes(">", d + 1) == d
  {
    assert "<"[1..] == "" && ">"[1..] == "";
  }

  lemma VectorPasses(d: nat)
    ensures Passes(VECTOR, d) == d + 1
  {
    NeutralPasses("std::vector", d);
    hide Passes;
    PassesConcat("std::vector", "<", d);
    SinglePasses(d);
    assert "std::vector" + "<" == VECTOR;
  }

  lemma ArrayPasses(d: nat)
    ensures Passes(ARRAY, d) == d + 1
  {
    NeutralPasses("std::array", d);
    hide Passes;
    PassesConcat("std::array", "<", d);
    SinglePasses(d);
    assert "std::array" + "<" == ARRAY;
  }

  lemma StringPasses(d: nat)
    ensures Passes("std::string", d) == d && Passes("basic_string<", d) == d + 1
  {
    NeutralPasses("std::string", d);
    NeutralPasses("basic_string", d);
    hide Passes;
    PassesConcat("basic_string", "<", d);
    SinglePasses(d);
    assert "basic_string" + "<" == "basic_string<";
  }

  /** A written type closes what it opens and has no comma outside. */
  lemma {:induction false} WrittenPasses(sp: Spelled)
    requires Well(sp)
    ensures Passes(Written(sp), 0) == 0
    decreases sp
  {
    hide Passes, CoreText, WellCore;
    SpacesPass(sp.before);
    SpacesPass(sp.after);
    CorePasses(sp.core);
    PassesConcat(sp.before, CoreText(sp.core), 0);
    PassesConcat(sp.before + CoreText(sp.core), sp.after, 0);
  }

  lemma SpacesPass(s: string)
    requires AllRefOrWs(s) || AllWs(s)
    ensures Passes(s, 0) == 0 && Passes(s, 1) == 1
  {
    NeutralPasses(s, 0);
    NeutralPasses(s, 1);
  }

  lemma {:induction false} CorePasses(c: Core)
    requires WellCore(c)
    ensures Passes(CoreText(c), 0) == 0
    decreases c
  {
    hide Passes;
    PrefixesPass(0);
    match c
    case Fixed(s) =>
      NamesAreWords(s);
      WordIsPlain(Name(s));
      NeutralPasses(Name(s), 0);
    case Words(words) =>
      NotNothing(words);
      JoinIsWord(words);
      WordIsPlain(Join(words));
      NeutralPasses(Join(words), 0);
    case StdString =>
    case BasicString(cxx11, arguments) =>
      var p := if cxx11 then CXX11 else STD;
      PatternsPass(0);
      PassesConcat(p, "basic_string<", 0);
      PassesConcat(p + "basic_string<", arguments, 0);
    case Vec(elem, extra) =>
      WrittenPasses(elem);
      hide Written;
      Bracketed(VECTOR, Written(elem), extra);
    case Arr(elem, gap, count, suffix, tail) =>
      WrittenPasses(elem);
      SizePasses(gap, count, suffix, tail, 1);
      hide Written;
      var size := gap + (Decimal(count) + (suffix + tail));
      CommaPasses();
      PassesConcat(",", size, 1);
      assert ARRAY + Written(elem) + "," + size == ARRAY + Written(elem) + ("," + size);
      Bracketed(ARRAY, Written(elem), "," + size);
  }

  lemma CommaPasses()
    ensures Passes(",", 1) == 1
  {
    assert ","[1..] == "";
  }

  lemma Bracketed(open: string, inner: string, extra: string)
    requires Passes(open, 0) == 1 && Passes(inner, 0) == 0 && Passes(extra, 1) == 1
    ensures Passes(open + inner + extra + ">", 0) == 0
  {
    hide Passes;
    PassesDeeper(inner, 0);
    PassesConcat(open, inner, 0);
    PassesConcat(open + inner, extra, 0);
    PassesConcat(open + inner + extra, ">", 0);
    PrefixesPass(0);
  }

  /** The size of an array with its suffix and the spaces around. */
  lemma SizePasses(gap: string, count: nat, suffix: string, tail: string, d: nat)
    requires AllWs(gap) && IsSuffix(suffix) && AllWs(tail)
    ensures Passes(gap + (Decimal(count) + (suffix + tail)), d) == d
  {
    DecimalIsNeutral(count);
    hide Passes, Decimal;
    assert Neutral(gap + (Decimal(count) + (suffix + tail)));
    NeutralPasses(gap + (Decimal(count) + (suffix + tail)), d);
  }

  // ---------------------------------------------------------------- replacing in spellings

  /** The spelling after "std::__cxx11::" became "std::". */
  function Clean(sp: Spelled): Spelled {
    Spelled(sp.before, CleanCore(sp.core), sp.after)
  }

  function CleanCore(c: Core): Core {
    match c
    case Fixed(_) => c
    case Words(_) => c
    case StdString => c
    case BasicString(_, arguments) => BasicString(false, Replaced(arguments))
    case Vec(elem, extra) => Vec(Clean(elem), Replaced(extra))
    case Arr(elem, gap, count, suffix, tail) => Arr(Clean(elem), gap, count, suffix, tail)
  }

  /** How deeply types are nested. */
  function Depth(sp: Spelled): nat {
    match sp.core
    case Vec(elem, _) => 1 + Depth(elem)
    case Arr(elem, _, _, _, _) => 1 + Depth(elem)
    case _ => 0
  }

  lemma {:induction false} CleanMeans(sp: Spelled)
    ensures Form(Clean(sp)) == Form(sp) && Depth(Clean(sp)) == Depth(sp)
    decreases sp
  {
    match sp.core
    case Vec(elem, _) => CleanMeans(elem);
    case Arr(elem, _, _, _, _) => CleanMeans(elem);
    case _ =>
  }

  lemma {:induction false} ReplacedWritten(sp: Spelled)
    requires Well(sp)
    ensures Replaced(Written(sp)) == Written(Clean(sp)) && Well(Clean(sp))
    decreases sp
  {
    hide Replaced, WellCore, CoreText, CleanCore;
    var core := CoreText(sp.core);
    ReplacedCore(sp.core);
    SpacesApart(sp.before, core, sp.after);
    ReplacedConcat(sp.before, core);
    ReplacedConcat(sp.before + core, sp.after);
  }

  lemma SpacesApart(before: string, core: string, after: string)
    requires AllWs(before) && AllRefOrWs(after)
    ensures Apart(before, core) && Apart(before + core, after)
    ensures Replaced(before) == before && Replaced(after) == after
  {
    ReplacedSame(before);
    ReplacedSame(after);
  }

  lemma {:induction false} ReplacedCore(c: Core)
    requires WellCore(c)
    ensures Replaced(CoreText(c)) == CoreText(CleanCore(c)) && WellCore(CleanCore(c))
    decreases c
  {
    hide Replaced, Passes;
    match c
    case Fixed(s) =>
      NamesAreWords(s);
      WordIsPlain(Name(s));
      ReplacedSame(Name(s));
    case Words(words) =>
      NotNothing(words);
      JoinIsWord(words);
      WordIsPlain(Join(words));
      ReplacedSame(Join(words));
    case StdString => ReplacedConstants();
    case BasicString(cxx11, arguments) => ReplacedBasicString(cxx11, arguments);
    case Vec(elem, extra) =>
      ReplacedWritten(elem);
      hide Written, Well;
      ReplacedExtra(extra);
      ReplacedBracketed(VECTOR, Written(elem), extra);
    case Arr(elem, gap, count, suffix, tail) =>
      ReplacedWritten(elem);
      hide Written, Well;
      var size := gap + (Decimal(count) + (suffix + tail));
      SizeReplaced(gap, count, suffix, tail);
      assert forall w: string :: ARRAY + w + "," + size + ">" == ARRAY + w + ("," + size) + ">";
      ReplacedBracketed(ARRAY, Written(elem), "," + size);
  }

  lemma ReplacedConstants()
    ensures Replaced("std::string") == "std::string" && Replaced(VECTOR) == VECTOR && Replaced(ARRAY) == ARRAY
    ensures Replaced("basic_string<") == "basic_string<" && Replaced(">") == ">" && Replaced(STD) == STD
    ensures Replaced(CXX11) == STD && Replaced(",") == ","
  {
    hide *;
    ReplacedPattern();
    KeptStdString();
    KeptVector();
    KeptArray();
    KeptBasicString();
    KeptShort();
  }

  lemma KeptStdString()
    ensures Replaced("std::string") == "std::string"
  {
    ReplacedSame("std::string");
  }

  lemma KeptVector()
    ensures Replaced(VECTOR) == VECTOR
  {
    ReplacedSame(VECTOR);
  }

  lemma KeptArray()
    ensures Replaced(ARRAY) == ARRAY
  {
    ReplacedSame(ARRAY);
  }

  lemma KeptBasicString()
    ensures Replaced("basic_string<") == "basic_string<"
  {
    ReplacedSame("basic_string<");
  }

  lemma KeptShort()
    ensures Replaced(">") == ">" && Replaced(STD) == STD && Replaced(",") == ","
  {
    ReplacedSame(">");
    ReplacedSame(",");
    ReplacedSame(STD);
  }

  lemma ReplacedBasicString(cxx11: bool, arguments: string)
    requires Passes(arguments, 1) == 0 && arguments != "" && arguments[|arguments| - 1] == '>'
    ensures Replaced((if cxx11 then CXX11 else STD) + "basic_string<" + arguments) ==
      STD + "basic_string<" + Replaced(arguments)
    ensures var r := Replaced(arguments); Passes(r, 1) == 0 && r != "" && r[|r| - 1] == '>'
  {
    hide Replaced, Passes;
    ReplacedConstants();
    var p := if cxx11 then CXX11 else STD;
    ReplacedConcat(p, "basic_string<");
    ReplacedConcat(p + "basic_string<", arguments);
    ReplacedPasses(arguments, 1);
    var init := arguments[..|arguments| - 1];
    assert arguments == init + ">";
    ReplacedConcat(init, ">");
  }

  lemma ReplacedExtra(extra: string)
    requires (extra != "" ==> extra[0] == ',') && Passes(extra, 1) == 1
    ensures var r := Replaced(extra); (r != "" ==> r[0] == ',') && Passes(r, 1) == 1
  {
    hide Passes, Replaced;
    ReplacedPasses(extra, 1);
    ReplacedEmpty();
    if extra != "" {
      assert extra == "," + extra[1..];
      ReplacedConstants();
      ReplacedConcat(",", extra[1..]);
    }
  }

  lemma SizeReplaced(gap: string, count: nat, suffix: string, tail: string)
    requires AllWs(gap) && IsSuffix(suffix) && AllWs(tail)
    ensures var x := "," + (gap + (Decimal(count) + (suffix + tail))); Replaced(x) == x
  {
    DecimalIsNeutral(count);
    var d := Decimal(count);
    assert forall i :: 0 <= i < |d| ==> IsDigit(d[i]);
    hide Decimal;
    ReplacedSame("," + (gap + (d + (suffix + tail))));
  }

  lemma ReplacedBracketed(open: string, inner: string, extra: string)
    requires open == VECTOR || open == ARRAY
    requires extra != "" ==> extra[0] == ','
    ensures Replaced(open + inner + extra + ">") == open + Replaced(inner) + Replaced(extra) + ">"
  {
    hide Replaced;
    ReplacedConstants();
    ReplacedConcat(open, inner);
    ReplacedConcat(open + inner, extra);
    ReplacedConcat(open + inner + extra, ">");
  }

  // ---------------------------------------------------------------- trimming of spellings

  lemma {:induction false} TrimFrontSkips(w: string, x: string)
    requires AllWs(w) && x != "" && !IsWs(x[0])
    ensures TrimFront(w + x) == x
  {
    if w == "" {
      assert w + x == x;
    } else {
      assert (w + x)[1..] == w[1..] + x;
      TrimFrontSkips(w[1..], x);
    }
  }

  lemma {:induction false} TrimBackKeeps(x: string, w: string) returns (k: nat)
    requires x != "" && !IsWs(x[|x| - 1])
    ensures k <= |w| && TrimBack(x + w) == x + w[..k]
    decreases |w|
  {
    k := |w|;
    if w == "" {
      assert x + w == x;
    } else {
      var init := w[..|w| - 1];
      if IsWs(w[|w| - 1]) {
        assert (x + w)[..|x + w| - 1] == x + init;
        k := TrimBackKeeps(x, init);
        assert init[..k] == w[..k];
      }
    }
  }

  lemma {:induction false} StripRefDrops(x: string, w: string)
    requires x != "" && !IsRefOrWs(x[|x| - 1]) && AllRefOrWs(w)
    ensures StripRef(x + w) == x
    decreases |w|
  {
    if w == "" {
      assert x + w == x;
    } else {
      assert (x + w)[..|x + w| - 1] == x + w[..|w| - 1];
      StripRefDrops(x, w[..|w| - 1]);
    }
  }

  /** Neither spaces nor references at the ends. */
  predicate Tight(s: string) {
    s != "" && !IsWs(s[0]) && !IsRefOrWs(s[|s| - 1])
  }

  lemma CoreIsTight(c: Core)
    requires WellCore(c)
    ensures Tight(CoreText(c))
  {
    match c
    case Fixed(s) =>
      NamesAreWords(s);
      WordIsPlain(Name(s));
    case Words(words) =>
      NotNothing(words);
      JoinIsWord(words);
      WordIsPlain(Join(words));
    case BasicString(_, _) => hide Passes;
    case _ => hide Passes, Written, Well;
  }

  lemma TrimTight(s: string)
    requires Tight(s)
    ensures Trim(s) == s
  {
  }

  /** Spaces and references around a type are dropped. */
  lemma NormalizeIs(sp: Spelled)
    requires Well(sp)
    ensures Normalize(Written(sp)) == CoreText(CleanCore(sp.core)) && WellCore(CleanCore(sp.core))
  {
    hide Replaced, CoreText, CleanCore, WellCore, TrimFront, TrimBack, StripRef;
    var core := CoreText(sp.core);
    CoreIsTight(sp.core);
    assert Written(sp) == sp.before + (core + sp.after);
    TrimFrontSkips(sp.before, core + sp.after);
    var k := TrimBackKeeps(core, sp.after);
    var inner := Spelled("", sp.core, sp.after[..k]);
    assert Written(inner) == core + sp.after[..k];
    ReplacedWritten(inner);
    var clean := CoreText(CleanCore(sp.core));
    assert Written(Clean(inner)) == clean + sp.after[..k];
    CoreIsTight(CleanCore(sp.core));
    StripRefDrops(clean, sp.after[..k]);
    TrimTight(clean);
  }

  // ---------------------------------------------------------------- canonical_type on spellings

  /** Only names with a colon in fourth place are parsed further. */
  lemma ParsedOther(s: string)
    requires IsWord(s) && FixedName(s) == ""
    ensures Parsed(s) == s
  {
    hide FixedName;
    assert VECTOR[3] == ':' && ARRAY[3] == ':';
    if VECTOR <= s || ARRAY <= s {
      FourthChar(s);
    }
  }

  lemma FourthChar(s: string)
    requires VECTOR <= s || ARRAY <= s
    ensures s[3] == ':'
  {
  }

  lemma ParsedFixed(s: string)
    requires FixedName(s) != ""
    ensures Parsed(s) == FixedName(s)
  {
    hide FixedName;
  }

  lemma ParsedWords(ws: seq<Specifier>)
    requires ws != []
    ensures Parsed(Join(ws)) == WordForm(ws)
  {
    hide Parsed, FixedName, Join;
    JoinIsWord(ws);
    if FixedName(Join(ws)) == "" {
      ParsedOther(Join(ws));
    } else {
      ParsedFixed(Join(ws));
    }
  }

  /** The instrument's names stay as they are. */
  lemma ParsedName(s: Scalar)
    ensures Parsed(Name(s)) == Name(s)
  {
    hide Parsed, FixedName;
    NamesAreWords(s);
    NameIsFixedOrNew(s);
    if FixedName(Name(s)) == "" {
      ParsedOther(Name(s));
    } else {
      ParsedFixed(Name(s));
    }
  }

  lemma NameIsFixedOrNew(s: Scalar)
    ensures FixedName(Name(s)) == "" || FixedName(Name(s)) == Name(s)
  {
    hide ByteName, SignedName, UnsignedName, UnsignedLongName;
    NamesAreWords(s);
    ByteNameOfName(s);
    OtherNamesOfName(s);
    if "std::basic_string<" <= Name(s) {
      FourthIsColon(Name(s));
    }
  }

  lemma ByteNameOfName(s: Scalar)
    ensures ByteName(Name(s)) == "" || ByteName(Name(s)) == Name(s)
  {
  }

  lemma OtherNamesOfName(s: Scalar)
    ensures SignedName(Name(s)) == "" && UnsignedName(Name(s)) == "" && UnsignedLongName(Name(s)) == ""
  {
  }

  lemma ParsedString(arguments: string)
    ensures Parsed("std::string") == "std::string"
    ensures Parsed(STD + "basic_string<" + arguments) == "std::string"
  {
    hide *;
    BasicStringIsFixed(arguments);
    ParsedFixed(STD + "basic_string<" + arguments);
    StdStringIsParsed();
  }

  lemma NotInTable(s: string)
    requires |s| > 1 && s[1] == 't'
    ensures ByteName(s) == "" && SignedName(s) == "" && UnsignedName(s) == "" && UnsignedLongName(s) == ""
  {
    hide *;
    NoShortName(s);
    NoUnsignedName(s);
  }

  lemma NoShortName(s: string)
    requires |s| > 1 && s[1] == 't'
    ensures ByteName(s) == "" && SignedName(s) == ""
  {
    hide *;
    NotAByteName(s);
    NotASignedName(s);
  }

  lemma NotAByteName(s: string)
    requires |s| > 1 && s[1] == 't'
    ensures ByteName(s) == ""
  {
  }

  lemma NotASignedName(s: string)
    requires |s| > 1 && s[1] == 't'
    ensures SignedName(s) == ""
  {
  }

  lemma NoUnsignedName(s: string)
    requires |s| > 1 && s[1] == 't'
    ensures UnsignedName(s) == "" && UnsignedLongName(s) == ""
  {
  }

  lemma BasicStringIsFixed(arguments: string)
    ensures FixedName(STD + "basic_string<" + arguments) == "std::string"
  {
    hide ByteName, SignedName, UnsignedName, UnsignedLongName;
    var s := STD + "basic_string<" + arguments;
    assert "std::basic_string<" <= s;
    NotInTable(s);
  }

  lemma StdStringIsParsed()
    ensures Parsed("std::string") == "std::string"
  {
    hide ByteName, SignedName, UnsignedName, UnsignedLongName;
    NotInTable("std::string");
  }

  lemma Between(x: string, y: string, z: string)
    ensures x <= x + y + z && (x + y + z)[|x|..|x + y + z| - |z|] == y
  {
  }

  lemma ParsedVector(elem: Spelled, extra: string)
    requires WellCore(Vec(elem, extra))
    ensures Parsed(CoreText(Vec(elem, extra))) == VECTOR + Canonical(Written(elem)) + ">"
  {
    hide Written, Well, WellCore, CoreText, Passes, Canonical, FixedName, Parsed, SplitTop;
    VectorSpelling(elem, extra);
    var s := VECTOR + Written(elem) + extra + ">";
    Between(VECTOR, Written(elem) + extra, ">");
    assert VECTOR + (Written(elem) + extra) + ">" == s;
    VectorIsNotFixed(s);
    ParsedAsVector(s);
    WrittenPasses(elem);
    FirstPart(Written(elem), extra);
  }

  lemma VectorSpelling(elem: Spelled, extra: string)
    requires WellCore(Vec(elem, extra))
    ensures Well(elem) && (extra != "" ==> extra[0] == ',')
    ensures CoreText(Vec(elem, extra)) == VECTOR + Written(elem) + extra + ">"
  {
    hide Well, Written, Passes;
  }

  lemma ParsedAsVector(s: string)
    requires FixedName(s) == "" && VECTOR <= s && s[|s| - 1] == '>'
    ensures 12 <= |s| - 1 && Parsed(s) == VECTOR + Canonical(SplitTop(s[12..|s| - 1])[0]) + ">"
  {
    hide FixedName, SplitTop;
    assert VECTOR[11] == '<';
  }

  lemma VectorIsNotFixed(s: string)
    requires VECTOR <= s || ARRAY <= s
    ensures FixedName(s) == ""
  {
    hide ByteName, SignedName, UnsignedName, UnsignedLongName;
    assert s[1] == 't' && (s[5] == 'v' || s[5] == 'a');
    NotInTable(s);
  }

  lemma ParsedArray(elem: Spelled, gap: string, count: nat, suffix: string, tail: string)
    requires WellCore(Arr(elem, gap, count, suffix, tail))
    ensures Parsed(CoreText(Arr(elem, gap, count, suffix, tail))) ==
      ARRAY + Canonical(Written(elem)) + ", " + Decimal(count) + ">"
  {
    hide Written, Well, WellCore, CoreText, Passes, Canonical, Decimal, FixedName, Parsed, SplitTop, DropSuffix, Trim,
         AllWs, IsSuffix;
    WrittenParts(elem, gap, count, suffix, tail);
    var size := gap + (Decimal(count) + (suffix + tail));
    var s := ARRAY + Written(elem) + "," + size + ">";
    Between(ARRAY, Written(elem) + "," + size, ">");
    assert ARRAY + (Written(elem) + "," + size) + ">" == s;
    VectorIsNotFixed(s);
    WrittenPasses(elem);
    SizePasses(gap, count, suffix, tail, 0);
    TwoParts(Written(elem), size);
    ParsedAsArray(s, Written(elem), size);
    SizeIs(gap, count, suffix, tail);
  }

  lemma WrittenParts(elem: Spelled, gap: string, count: nat, suffix: string, tail: string)
    requires WellCore(Arr(elem, gap, count, suffix, tail))
    ensures Well(elem) && AllWs(gap) && IsSuffix(suffix) && AllWs(tail)
    ensures CoreText(Arr(elem, gap, count, suffix, tail)) ==
              ARRAY + Written(elem) + "," + (gap + (Decimal(count) + (suffix + tail))) + ">"
  {
    hide Well, AllWs, IsSuffix, Written, Decimal;
  }

  lemma ParsedAsArray(s: string, elem: string, size: string)
    requires FixedName(s) == "" && ARRAY <= s && s[|s| - 1] == '>'
    requires 11 <= |s| - 1 && SplitTop(s[11..|s| - 1]) == [elem, size]
    ensures Parsed(s) == ARRAY + Canonical(elem) + ", " + DropSuffix(Trim(size)) + ">"
  {
    hide FixedName, SplitTop, DropSuffix, Trim;
    assert s[5] == ARRAY[5] && ARRAY[5] != VECTOR[5];
  }

  lemma SizeIs(gap: string, count: nat, suffix: string, tail: string)
    requires AllWs(gap) && IsSuffix(suffix) && AllWs(tail)
    ensures DropSuffix(Trim(gap + (Decimal(count) + (suffix + tail)))) == Decimal(count)
  {
    var d := Decimal(count);
    assert IsDigit(d[0]) && IsDigit(d[|d| - 1]);
    hide Decimal;
    assert d + (suffix + tail) == (d + suffix) + tail;
    TrimFrontSkips(gap, d + (suffix + tail));
    TrimBackDrops(d + suffix, tail);
    DropSuffixDrops(d, suffix);
  }

  lemma {:induction false} TrimBackDrops(x: string, w: string)
    requires x != "" && !IsWs(x[|x| - 1]) && AllWs(w)
    ensures TrimBack(x + w) == x
    decreases |w|
  {
    if w == "" {
      assert x + w == x;
    } else {
      assert (x + w)[..|x + w| - 1] == x + w[..|w| - 1];
      TrimBackDrops(x, w[..|w| - 1]);
    }
  }

  lemma {:induction false} DropSuffixDrops(x: string, w: string)
    requires x != "" && IsDigit(x[|x| - 1]) && IsSuffix(w)
    ensures DropSuffix(x + w) == x
    decreases |w|
  {
    if w == "" {
      assert x + w == x;
    } else {
      assert (x + w)[..|x + w| - 1] == x + w[..|w| - 1];
      DropSuffixDrops(x, w[..|w| - 1]);
    }
  }

  /** canonical_type keeps exactly the types of every spelling, with its scalars as the table has
      them. */
  lemma {:induction false} CanonicalOfWritten(sp: Spelled)
    requires Well(sp)
    ensures Canonical(Written(sp)) == Form(sp)
    decreases Depth(sp)
  {
    hide Written, CoreText, CleanCore, Canonical, Parsed, Normalize, Replaced, Passes, Decimal;
    hide Join, Name, WordForm, CppScalar;
    var core := CleanCore(sp.core);
    NormalizeIs(sp);
    CanonicalUnfold(Written(sp));
    CleanMeans(sp);
    CleanIsStd(sp.core);
    assert Clean(sp).core == core;
    match core
    case Fixed(s) =>
      TextOfScalar(s, []);
      ParsedName(s);
    case Words(words) =>
      NotNothing(words);
      TextOfScalar(Bool, words);
      ParsedWords(words);
    case StdString =>
      TextOfString("");
      ParsedString("");
    case BasicString(_, arguments) =>
      TextOfString(arguments);
      ParsedString(arguments);
    case Vec(elem, extra) =>
      ParsedVector(elem, extra);
      CanonicalOfWritten(elem);
    case Arr(elem, gap, count, suffix, tail) =>
      ParsedArray(elem, gap, count, suffix, tail);
      CanonicalOfWritten(elem);
  }

  lemma TextOfScalar(s: Scalar, words: seq<Specifier>)
    ensures CoreText(Fixed(s)) == Name(s) && CoreText(Words(words)) == Join(words)
  {
  }

  lemma TextOfString(arguments: string)
    ensures CoreText(StdString) == "std::string"
    ensures CoreText(BasicString(false, arguments)) == STD + "basic_string<" + arguments
  {
  }

  lemma CleanIsStd(c: Core)
    ensures CleanCore(c).BasicString? ==> !CleanCore(c).cxx11
  {
  }

  // ---------------------------------------------------------------- the two spellings in use

  /** As written in a driver and printed in the context. */
  function InDriver(t: Type): Spelled {
    match t
    case Basic(s) => Bare(Fixed(s))
    case String => Bare(StdString)
    case Vector(elem) => Bare(Vec(InDriver(elem), ""))
    case Array(elem, count) => Bare(Arr(InDriver(elem), " ", count, "", ""))
  }

  /** As gcc demangles it: with allocators, inline namespaces, size suffixes, and a space between
      closing brackets. */
  function Demangled(t: Type): Spelled {
    match t
    case Basic(s) => Bare(Words(GccWords(s)))
    case String => Bare(BasicString(true, StringArguments()))
    case Vector(elem) => Bare(Vec(Demangled(elem), Allocator(Written(Demangled(elem)))))
    case Array(elem, count) => Bare(Arr(Demangled(elem), " ", count, "ul", ""))
  }

  function GccWords(s: Scalar): seq<Specifier> {
    match s
    case Bool => [WBool]
    case Char => [WChar]
    case Float => [WFloat]
    case Double => [WDouble]
    case Int8 => [WSigned, WChar]
    case UInt8 => [WUnsigned, WChar]
    case Int16 => [WShort]
    case UInt16 => [WUnsigned, WShort]
    case Int32 => [WInt]
    case UInt32 => [WUnsigned, WInt]
    case Int64 => [WLong]
    case UInt64 => [WUnsigned, WLong]
  }

  function AllocatorName(): string {
    " std::allocator"
  }

  function TraitsName(): string {
    " std::char_traits"
  }

  /** A further template argument that is a template itself. */
  function Argument(name: string, inner: string): string {
    "," + name + "<" + inner + ">"
  }

  function Allocator(elem: string): string {
    Argument(AllocatorName(), elem + (if elem != "" && elem[|elem| - 1] == '>' then " " else "")) + " "
  }

  /** char, std::char_traits<char>, std::allocator<char> > */
  function StringArguments(): string {
    "char" + Argument(TraitsName(), "char") + Allocator("char") + ">"
  }

  function Bare(c: Core): Spelled {
    Spelled("", c, "")
  }

  lemma {:induction false} InDriverIs(t: Type)
    ensures Well(InDriver(t)) && Written(InDriver(t)) == Canon(t) && Meaning(InDriver(t)) == t
    ensures AllUnderstood(InDriver(t))
  {
    hide Decimal, Passes, Name;
    NothingPasses();
    match t
    case Basic(s) =>
    case String =>
    case Vector(elem) =>
      InDriverIs(elem);
      hide Written, CoreText, Canon;
      VectorText(elem);
    case Array(elem, count) =>
      InDriverIs(elem);
      hide Written, CoreText, Canon;
      ArrayText(elem, count);
  }

  lemma WrittenBare(c: Core)
    ensures Written(Bare(c)) == CoreText(c)
  {
    hide CoreText;
  }

  lemma VectorText(elem: Type)
    requires Written(InDriver(elem)) == Canon(elem)
    ensures Written(InDriver(Vector(elem))) == Canon(Vector(elem))
  {
    var c := Vec(InDriver(elem), "");
    WrittenBare(c);
    hide Written;
    assert VECTOR + Canon(elem) + "" + ">" == VECTOR + Canon(elem) + ">";
  }

  lemma ArrayText(elem: Type, count: nat)
    requires Written(InDriver(elem)) == Canon(elem)
    ensures Written(InDriver(Array(elem, count))) == Canon(Array(elem, count))
  {
    var c := Arr(InDriver(elem), " ", count, "", "");
    WrittenBare(c);
    hide Written, Decimal;
    NoSuffix(Canon(elem), Decimal(count));
  }

  lemma NoSuffix(e: string, d: string)
    ensures ARRAY + e + "," + (" " + (d + ("" + ""))) + ">" == ARRAY + e + ", " + d + ">"
  {
    assert d + ("" + "") == d;
    assert ARRAY + e + "," + (" " + d) == ARRAY + e + ", " + d;
  }

  lemma NothingPasses()
    ensures Passes("", 1) == 1
  {
  }

  lemma GccWordsMean(s: Scalar)
    ensures CppScalar(GccWords(s)) == Known(s) && Understood(GccWords(s))
  {
    hide *;
    GccWordsAreUnderstood(s);
    if |GccWords(s)| == 1 {
      OneGccWord(s);
    } else {
      TwoGccWords(s);
    }
  }

  lemma OneGccWord(s: Scalar)
    requires |GccWords(s)| == 1
    ensures CppScalar(GccWords(s)) == Known(s)
  {
    hide Count, Meant;
    CountUpTo4(GccWords(s));
    NamesMean();
    SizesMean();
  }

  lemma TwoGccWords(s: Scalar)
    requires |GccWords(s)| != 1
    ensures CppScalar(GccWords(s)) == Known(s)
  {
    hide Count, Meant;
    CountUpTo4(GccWords(s));
    BytesMean();
    UnsignedSizesMean();
  }

  lemma NamesMean()
    ensures Meant(NONE.(bools := 1)) == Known(Bool) && Meant(NONE.(chars := 1)) == Known(Char)
    ensures Meant(NONE.(floats := 1)) == Known(Float) && Meant(NONE.(doubles := 1)) == Known(Double)
  {
  }

  lemma SizesMean()
    ensures Meant(NONE.(shorts := 1)) == Known(Int16) && Meant(NONE.(ints := 1)) == Known(Int32)
    ensures Meant(NONE.(longs := 1)) == Known(Int64)
  {
  }

  lemma BytesMean()
    ensures Meant(NONE.(signeds := 1, chars := 1)) == Known(Int8)
    ensures Meant(NONE.(unsigneds := 1, chars := 1)) == Known(UInt8)
  {
  }

  lemma UnsignedSizesMean()
    ensures Meant(NONE.(unsigneds := 1, shorts := 1)) == Known(UInt16)
    ensures Meant(NONE.(unsigneds := 1, ints := 1)) == Known(UInt32)
    ensures Meant(NONE.(unsigneds := 1, longs := 1)) == Known(UInt64)
  {
  }

  lemma GccWordsAreUnderstood(s: Scalar)
    ensures Understood(GccWords(s))
  {
  }

  lemma {:induction false} DemangledIs(t: Type)
    ensures Well(Demangled(t)) && Meaning(Demangled(t)) == t && AllUnderstood(Demangled(t))
  {
    hide Decimal, Passes, Written, CppScalar, Understood, GccWords;
    match t
    case Basic(s) => GccWordsMean(s);
    case String =>
      StringArgumentsPass();
      hide StringArguments;
    case Vector(elem) =>
      DemangledIs(elem);
      WrittenPasses(Demangled(elem));
      AllocatorPasses(Written(Demangled(elem)));
    case Array(elem, count) => DemangledIs(elem);
  }

  lemma SpacePasses(s: string, d: nat)
    requires s == " " || s == ""
    ensures Passes(s, d) == d
  {
    NeutralPasses(s, d);
  }

  lemma ArgumentPasses(name: string, inner: string)
    requires Neutral(name) && Passes(inner, 0) == 0
    ensures Passes(Argument(name, inner), 1) == 1
  {
    NeutralPasses(name, 1);
    CommaPasses();
    SinglePasses(1);
    hide Passes, Neutral;
    PassesDeeper(inner, 0);
    PassesDeeper(inner, 1);
    PassesConcat(",", name, 1);
    PassesConcat("," + name, "<", 1);
    PassesConcat("," + name + "<", inner, 1);
    PassesConcat("," + name + "<" + inner, ">", 1);
  }

  lemma NeutralNames()
    ensures Neutral(AllocatorName()) && Neutral(TraitsName())
  {
  }

  lemma CharPasses(d: nat)
    ensures Passes("char", d) == d
  {
    NeutralPasses("char", d);
  }

  lemma AllocatorPasses(elem: string)
    requires Passes(elem, 0) == 0
    ensures Allocator(elem)[0] == ',' && Passes(Allocator(elem), 1) == 1
  {
    hide Passes, Neutral, AllocatorName, TraitsName;
    NeutralNames();
    var space := if elem != "" && elem[|elem| - 1] == '>' then " " else "";
    SpacePasses(space, 0);
    SpacePasses(" ", 1);
    PassesConcat(elem, space, 0);
    ArgumentPasses(AllocatorName(), elem + space);
    PassesConcat(Argument(AllocatorName(), elem + space), " ", 1);
  }

  lemma StringArgumentsPass()
    ensures Passes(StringArguments(), 1) == 0 && StringArguments()[|StringArguments()| - 1] == '>'
  {
    hide Passes, Neutral, AllocatorName, TraitsName, Argument, Allocator;
    NeutralNames();
    CharPasses(0);
    CharPasses(1);
    var traits, alloc := Argument(TraitsName(), "char"), Allocator("char");
    ArgumentPasses(TraitsName(), "char");
    AllocatorPasses("char");
    SinglePasses(0);
    PassesConcat("char", traits, 1);
    PassesConcat("char" + traits, alloc, 1);
    PassesConcat("char" + traits + alloc, ">", 1);
  }

  // ---------------------------------------------------------------- different types

  lemma NamesDiffer(a: Scalar, b: Scalar)
    ensures Name(a) == Name(b) ==> a == b
    ensures Name(a) != "" && Name(a)[0] != 's'
  {
  }

  lemma CanonStart(t: Type)
    ensures t.Basic? ==> Canon(t) != "" && Canon(t)[0] != 's'
    ensures t.String? ==> |Canon(t)| > 5 && Canon(t)[5] == 's' && Canon(t)[0] == 's'
    ensures t.Vector? ==> |Canon(t)| > 5 && Canon(t)[5] == 'v' && Canon(t)[0] == 's'
    ensures t.Array? ==> |Canon(t)| > 5 && Canon(t)[5] == 'a' && Canon(t)[0] == 's'
  {
    hide Decimal;
    if t.Basic? {
      hide Name;
      NamesDiffer(t.scalar, t.scalar);
    } else if t.Vector? {
      assert Canon(t)[5] == VECTOR[5] && Canon(t)[0] == VECTOR[0];
    } else if t.Array? {
      assert Canon(t)[5] == ARRAY[5] && Canon(t)[0] == ARRAY[0];
    }
  }

  lemma DecimalsDiffer(m: nat, n: nat)
    requires Decimal(m) == Decimal(n)
    ensures m == n
  {
    hide Decimal;
    var d := Decimal(m);
    assert d[0..|d|] == d;
    DigitsAppend(d, 0, m, 0, |d|);
    DigitsAppend(d, 0, n, 0, |d|);
  }

  /** Different types have different canonical spellings. */
  lemma {:induction false} CanonDiffers(t: Type, u: Type)
    requires Canon(t) == Canon(u)
    ensures t == u
    decreases t
  {
    hide Decimal, Name;
    CanonStart(t);
    CanonStart(u);
    match t
    case Basic(s) => NamesDiffer(s, u.scalar);
    case String =>
    case Vector(elem) =>
      SameInside(VECTOR, Canon(elem), Canon(u.elem));
      hide Canon;
      CanonDiffers(elem, u.elem);
    case Array(elem, count) =>
      ArrayParts(elem, count);
      ArrayParts(u.elem, u.count);
      hide Canon;
      CanonDiffers(elem, u.elem);
      assert " " + Decimal(count) == " " + Decimal(u.count);
      SameTail(" ", Decimal(count), Decimal(u.count));
      DecimalsDiffer(count, u.count);
  }

  lemma SameInside(a: string, x: string, y: string)
    requires a + x + ">" == a + y + ">"
    ensures x == y
  {
    var p, q := a + x + ">", a + y + ">";
    assert x == p[|a|..|p| - 1] && y == q[|a|..|q| - 1];
  }

  lemma SameTail(a: string, x: string, y: string)
    requires a + x == a + y
    ensures x == y
  {
    assert x == (a + x)[|a|..] && y == (a + y)[|a|..];
  }

  /** The element and the size can be read off the spelling of an array. */
  lemma ArrayParts(elem: Type, count: nat)
    ensures var s := Canon(Array(elem, count));
      |s| > 11 && SplitTop(s[11..|s| - 1]) == [Canon(elem), " " + Decimal(count)]
  {
    var s, e, d := Canon(Array(elem, count)), Canon(elem), Decimal(count);
    InDriverIs(elem);
    WrittenPasses(InDriver(elem));
    DecimalIsNeutral(count);
    hide Decimal, Canon;
    NeutralPasses(" " + d, 0);
    hide Passes;
    CanonOfArray(elem, count);
    Inside(s, e, d);
    TwoParts(e, " " + d);
  }

  lemma Inside(s: string, e: string, d: string)
    requires s == ARRAY + e + ", " + d + ">"
    ensures |s| > 11 && s[11..|s| - 1] == e + "," + (" " + d)
  {
  }

  lemma CanonOfArray(elem: Type, count: nat)
    ensures Canon(Array(elem, count)) == ARRAY + Canon(elem) + ", " + Decimal(count) + ">"
  {
    hide Decimal;
  }

  /** Texts around a middle. */
  lemma SameMiddle(a: string, x: string, y: string, b: string)
    requires a + x + b == a + y + b
    ensures x == y
  {
    var p, q := a + x + b, a + y + b;
    assert x == p[|a|..|p| - |b|] && y == q[|a|..|q| - |b|];
  }

  lemma {:induction false} FormIsCanon(sp: Spelled)
    requires Well(sp)
    ensures Form(sp) == Canon(Meaning(sp)) <==> AllUnderstood(sp)
    decreases sp
  {
    hide Passes, WordForm, Name, CppScalar, Understood, Decimal;
    match sp.core
    case Fixed(_) =>
    case StdString =>
    case BasicString(_, _) =>
    case Words(words) => WordFormIsRight(words);
    case Vec(elem, _) =>
      FormIsCanon(elem);
      var x, y := Form(elem), Canon(Meaning(elem));
      hide Form, Canon, Meaning, Well;
      if VECTOR + x + ">" == VECTOR + y + ">" {
        SameMiddle(VECTOR, x, y, ">");
      }
    case Arr(elem, _, count, _, _) =>
      FormIsCanon(elem);
      var x, y, b := Form(elem), Canon(Meaning(elem)), ", " + Decimal(count) + ">";
      hide Form, Canon, Meaning, Well;
      assert forall z: string :: ARRAY + z + ", " + Decimal(count) + ">" == ARRAY + z + b;
      if ARRAY + x + b == ARRAY + y + b {
        SameMiddle(ARRAY, x, y, b);
      }
  }

  /** canonical_type gives the canonical spelling of the type that is meant exactly when every
      scalar is written in words that the table understands. */
  lemma CanonicalIsRight(sp: Spelled)
    requires Well(sp)
    ensures Canonical(Written(sp)) == Canon(Meaning(sp)) <==> AllUnderstood(sp)
  {
    hide *;
    CanonicalOfWritten(sp);
    FormIsCanon(sp);
  }

  /** gcc's spelling and the driver's spelling of a type are sent to the same string. */
  lemma SpellingsAgree(t: Type)
    ensures Canonical(Written(Demangled(t))) == Canonical(Written(InDriver(t))) == Canon(t)
  {
    hide *;
    DemangledIs(t);
    InDriverIs(t);
    CanonicalIsRight(Demangled(t));
    CanonicalIsRight(InDriver(t));
  }

  /** Between spellings that are understood, the canonical forms are the same exactly when the
      types are. */
  lemma CanonicalDecides(a: Spelled, b: Spelled)
    requires Well(a) && Well(b) && AllUnderstood(a) && AllUnderstood(b)
    ensures Canonical(Written(a)) == Canonical(Written(b)) <==> Meaning(a) == Meaning(b)
  {
    hide *;
    CanonicalIsRight(a);
    CanonicalIsRight(b);
    if Canonical(Written(a)) == Canonical(Written(b)) {
      CanonDiffers(Meaning(a), Meaning(b));
    }
  }

  /** The comparison of a client's type with an instrument's spelling accepts the type that the
      spelling means and no other exactly when the spelling is understood. */
  lemma CheckIsRight(sp: Spelled)
    requires Well(sp)
    ensures (forall t: Type :: Canonical(Written(Demangled(t))) == Canonical(Written(sp)) <==> t == Meaning(sp))
            <==> AllUnderstood(sp)
  {
    hide *;
    CanonicalIsRight(sp);
    SpellingsAgree(Meaning(sp));
    if AllUnderstood(sp) {
      forall t: Type
        ensures Canonical(Written(Demangled(t))) == Canonical(Written(sp)) <==> t == Meaning(sp)
      {
        DemangledIs(t);
        CanonicalDecides(Demangled(t), sp);
      }
    }
  }

  /** The table takes "signed int" and "signed" for eight bits while "int" has thirty-two, and it
      does not know "short unsigned". */
  lemma NotUnderstood()
    ensures Canonical("signed int") == Canonical("signed") == "int8_t" && Canonical("int") == "int32_t"
    ensures Canonical("short unsigned") == "short unsigned"
  {
    hide *;
    FourWords();
    CanonicalWords([WSigned, WInt]);
    CanonicalWords([WSigned]);
    CanonicalWords([WInt]);
    CanonicalWords([WShort, WUnsigned]);
    WordFormIs([WSigned, WInt]);
    WordFormIs([WSigned]);
    WordFormIs([WInt]);
    WordFormIs([WShort, WUnsigned]);
    TheTexts();
  }

  lemma FourWords()
    ensures CppScalar([WSigned, WInt]).Known? && CppScalar([WSigned]).Known? && CppScalar([WInt]).Known?
    ensures CppScalar([WShort, WUnsigned]).Known? && Row([WShort, WUnsigned]) == NoScalar
    ensures Row([WSigned, WInt]) == Row([WSigned]) == Known(Int8) && Row([WInt]) == Known(Int32)
    ensures Name(Int8) == "int8_t" && Name(Int32) == "int32_t"
  {
    hide CppScalar, Understood;
    ByteRowMeans([WSigned, WInt]);
    ByteRowMeans([WSigned]);
    SignedRowMeans([WInt]);
    ShortUnsigned();
  }

  lemma ShortUnsigned()
    ensures CppScalar([WShort, WUnsigned]) == Known(UInt16)
  {
    hide Count;
    CountUpTo4([WShort, WUnsigned]);
  }

  lemma TheTexts()
    ensures Join([WSigned]) == "signed" && Join([WInt]) == "int"
    ensures Join([WSigned, WInt]) == "signed int" && Join([WShort, WUnsigned]) == "short unsigned"
  {
    JoinOne(WSigned);
    JoinOne(WInt);
    JoinTwo(WSigned, WInt);
    JoinTwo(WShort, WUnsigned);
    hide Join;
  }

  lemma CanonicalWords(ws: seq<Specifier>)
    requires CppScalar(ws).Known?
    ensures Canonical(Join(ws)) == WordForm(ws)
  {
    hide Canonical, Join, WordForm, CppScalar;
    var sp := Bare(Words(ws));
    CanonicalOfWritten(sp);
    assert Written(sp) == Join(ws);
  }

  // ---------------------------------------------------------------- the table, name by name

  /** A row of the table, and what canonical_type makes of it. */
  lemma OneRow(ws: seq<Specifier>, s: Scalar)
    requires ws != [] && CppScalar(ws).Known? && Row(ws) == Known(s)
    ensures Canonical(Join(ws)) == Name(s)
  {
    hide Canonical, Join, Row, CppScalar, Name, WordForm;
    CanonicalWords(ws);
    WordFormIs(ws);
  }

  lemma ByteTable()
    ensures Canonical("bool") == "bool" && Canonical("char") == "char"
    ensures Canonical("float") == "float" && Canonical("double") == "double"
    ensures Canonical("signed char") == "int8_t" && Canonical("signed int") == "int8_t"
    ensures Canonical("signed") == "int8_t"
  {
    hide *;
    ByteTexts();
    ByteScalars();
    ByteNames();
    JoinOne(WBool);
    JoinOne(WChar);
    JoinOne(WFloat);
    JoinOne(WDouble);
    JoinTwo(WSigned, WChar);
    JoinTwo(WSigned, WInt);
    JoinOne(WSigned);
    OneRow([WBool], Bool);
    OneRow([WChar], Char);
    OneRow([WFloat], Float);
    OneRow([WDouble], Double);
    OneRow([WSigned, WChar], Int8);
    OneRow([WSigned, WInt], Int8);
    OneRow([WSigned], Int8);
  }

  lemma ByteScalars()
    ensures Row([WBool]) == Known(Bool) && CppScalar([WBool]).Known?
    ensures Row([WChar]) == Known(Char) && CppScalar([WChar]).Known?
    ensures Row([WFloat]) == Known(Float) && CppScalar([WFloat]).Known?
    ensures Row([WDouble]) == Known(Double) && CppScalar([WDouble]).Known?
    ensures Row([WSigned, WChar]) == Known(Int8) && CppScalar([WSigned, WChar]).Known?
    ensures Row([WSigned, WInt]) == Known(Int8) && CppScalar([WSigned, WInt]).Known?
    ensures Row([WSigned]) == Known(Int8) && CppScalar([WSigned]).Known?
  {
    hide CppScalar, Understood;
    ByteRowMeans([WBool]);
    ByteRowMeans([WChar]);
    ByteRowMeans([WFloat]);
    ByteRowMeans([WDouble]);
    ByteRowMeans([WSigned, WChar]);
    ByteRowMeans([WSigned, WInt]);
    ByteRowMeans([WSigned]);
  }

  lemma ByteNames()
    ensures Name(Bool) == "bool" && Name(Char) == "char" && Name(Double) == "double"
    ensures Name(Float) == "float" && Name(Int8) == "int8_t"
  {
  }

  lemma SignedTable()
    ensures Canonical("short") == "int16_t" && Canonical("short int") == "int16_t"
    ensures Canonical("int") == "int32_t" && Canonical("long") == "int64_t"
    ensures Canonical("long int") == "int64_t" && Canonical("long long") == "int64_t"
    ensures Canonical("long long int") == "int64_t"
  {
    hide *;
    SignedTexts();
    SignedScalars();
    SignedNames();
    JoinOne(WShort);
    JoinTwo(WShort, WInt);
    JoinOne(WInt);
    JoinOne(WLong);
    JoinTwo(WLong, WInt);
    JoinTwo(WLong, WLong);
    JoinThree(WLong, WLong, WInt);
    OneRow([WShort], Int16);
    OneRow([WShort, WInt], Int16);
    OneRow([WInt], Int32);
    OneRow([WLong], Int64);
    OneRow([WLong, WInt], Int64);
    OneRow([WLong, WLong], Int64);
    OneRow([WLong, WLong, WInt], Int64);
  }

  lemma SignedScalars()
    ensures Row([WShort]) == Known(Int16) && CppScalar([WShort]).Known?
    ensures Row([WShort, WInt]) == Known(Int16) && CppScalar([WShort, WInt]).Known?
    ensures Row([WInt]) == Known(Int32) && CppScalar([WInt]).Known?
    ensures Row([WLong]) == Known(Int64) && CppScalar([WLong]).Known?
    ensures Row([WLong, WInt]) == Known(Int64) && CppScalar([WLong, WInt]).Known?
    ensures Row([WLong, WLong]) == Known(Int64) && CppScalar([WLong, WLong]).Known?
    ensures Row([WLong, WLong, WInt]) == Known(Int64) && CppScalar([WLong, WLong, WInt]).Known?
  {
    hide CppScalar, Understood;
    SignedRowMeans([WShort]);
    SignedRowMeans([WShort, WInt]);
    SignedRowMeans([WInt]);
    SignedRowMeans([WLong]);
    SignedRowMeans([WLong, WInt]);
    SignedRowMeans([WLong, WLong]);
    SignedRowMeans([WLong, WLong, WInt]);
  }

  lemma SignedNames()
    ensures Name(Int16) == "int16_t" && Name(Int32) == "int32_t" && Name(Int64) == "int64_t"
  {
  }

  lemma UnsignedTable()
    ensures Canonical("unsigned char") == "uint8_t" && Canonical("unsigned short") == "uint16_t"
    ensures Canonical("unsigned short int") == "uint16_t" && Canonical("unsigned int") == "uint32_t"
    ensures Canonical("unsigned") == "uint32_t"
  {
    hide *;
    UnsignedTexts();
    UnsignedScalars();
    UnsignedNames();
    JoinTwo(WUnsigned, WChar);
    JoinTwo(WUnsigned, WShort);
    JoinThree(WUnsigned, WShort, WInt);
    JoinTwo(WUnsigned, WInt);
    JoinOne(WUnsigned);
    OneRow([WUnsigned, WChar], UInt8);
    OneRow([WUnsigned, WShort], UInt16);
    OneRow([WUnsigned, WShort, WInt], UInt16);
    OneRow([WUnsigned, WInt], UInt32);
    OneRow([WUnsigned], UInt32);
  }

  lemma UnsignedScalars()
    ensures Row([WUnsigned, WChar]) == Known(UInt8) && CppScalar([WUnsigned, WChar]).Known?
    ensures Row([WUnsigned, WShort]) == Known(UInt16) && CppScalar([WUnsigned, WShort]).Known?
    ensures Row([WUnsigned, WShort, WInt]) == Known(UInt16) && CppScalar([WUnsigned, WShort, WInt]).Known?
    ensures Row([WUnsigned, WInt]) == Known(UInt32) && CppScalar([WUnsigned, WInt]).Known?
    ensures Row([WUnsigned]) == Known(UInt32) && CppScalar([WUnsigned]).Known?
  {
    hide CppScalar, Understood;
    UnsignedRowMeans([WUnsigned, WChar]);
    UnsignedRowMeans([WUnsigned, WShort]);
    UnsignedRowMeans([WUnsigned, WShort, WInt]);
    UnsignedRowMeans([WUnsigned, WInt]);
    UnsignedRowMeans([WUnsigned]);
  }

  lemma UnsignedNames()
    ensures Name(UInt16) == "uint16_t" && Name(UInt32) == "uint32_t" && Name(UInt8) == "uint8_t"
  {
  }

  lemma UnsignedLongTable()
    ensures Canonical("unsigned long") == "uint64_t" && Canonical("unsigned long int") == "uint64_t"
    ensures Canonical("unsigned long long") == "uint64_t" && Canonical("unsigned long long int") == "uint64_t"
  {
    hide *;
    UnsignedLongTexts();
    UnsignedLongScalars();
    UnsignedLongNames();
    JoinTwo(WUnsigned, WLong);
    JoinThree(WUnsigned, WLong, WInt);
    JoinThree(WUnsigned, WLong, WLong);
    JoinFour(WUnsigned, WLong, WLong, WInt);
    OneRow([WUnsigned, WLong], UInt64);
    OneRow([WUnsigned, WLong, WInt], UInt64);
    OneRow([WUnsigned, WLong, WLong], UInt64);
    OneRow([WUnsigned, WLong, WLong, WInt], UInt64);
  }

  lemma UnsignedLongScalars()
    ensures Row([WUnsigned, WLong]) == Known(UInt64) && CppScalar([WUnsigned, WLong]).Known?
    ensures Row([WUnsigned, WLong, WInt]) == Known(UInt64) && CppScalar([WUnsigned, WLong, WInt]).Known?
    ensures Row([WUnsigned, WLong, WLong]) == Known(UInt64) && CppScalar([WUnsigned, WLong, WLong]).Known?
    ensures Row([WUnsigned, WLong, WLong, WInt]) == Known(UInt64) && CppScalar([WUnsigned, WLong, WLong, WInt]).Known?
  {
    hide CppScalar, Understood;
    UnsignedLongRowMeans([WUnsigned, WLong]);
    UnsignedLongRowMeans([WUnsigned, WLong, WInt]);
    UnsignedLongRowMeans([WUnsigned, WLong, WLong]);
    UnsignedLongRowMeans([WUnsigned, WLong, WLong, WInt]);
  }

  lemma UnsignedLongNames()
    ensures Name(UInt64) == "uint64_t"
  {
  }

  /** What canonical_type gives for every name in the table. */
  lemma CanonicalTable()
    ensures Canonical("bool") == "bool" && Canonical("char") == "char"
    ensures Canonical("float") == "float" && Canonical("double") == "double"
    ensures Canonical("signed char") == "int8_t" && Canonical("signed int") == "int8_t"
    ensures Canonical("signed") == "int8_t" && Canonical("short") == "int16_t"
    ensures Canonical("short int") == "int16_t" && Canonical("int") == "int32_t"
    ensures Canonical("long") == "int64_t" && Canonical("long int") == "int64_t"
    ensures Canonical("long long") == "int64_t" && Canonical("long long int") == "int64_t"
    ensures Canonical("unsigned char") == "uint8_t" && Canonical("unsigned short") == "uint16_t"
    ensures Canonical("unsigned short int") == "uint16_t" && Canonical("unsigned int") == "uint32_t"
    ensures Canonical("unsigned") == "uint32_t" && Canonical("unsigned long") == "uint64_t"
    ensures Canonical("unsigned long int") == "uint64_t" && Canonical("unsigned long long") == "uint64_t"
    ensures Canonical("unsigned long long int") == "uint64_t"
  {
    hide *;
    ByteTable();
    SignedTable();
    UnsignedTable();
    UnsignedLongTable();
  }

  // ---------------------------------------------------------------- two spellings of gcc

  lemma StringExample()
    ensures Canonical("std::__cxx11::" + "basic_string<" + "char" + ", std::char_traits<char>"
                      + ", std::allocator<char> " + ">") == "std::string"
  {
    hide Canonical, Written, CoreText;
    SpellingsAgree(String);
    StringSpelled();
    CharArguments();
    hide StringArguments;
    var a, b, c, d := CXX11 + "basic_string<", "char" + ", std::char_traits<char>", ", std::allocator<char> ", ">";
    assert a + (b + c + d) == a + "char" + ", std::char_traits<char>" + c + d;
  }

  lemma StringSpelled()
    ensures Written(Demangled(String)) == CXX11 + "basic_string<" + StringArguments()
  {
    WrittenBare(BasicString(true, StringArguments()));
    hide Written, StringArguments;
  }

  lemma CharArguments()
    ensures StringArguments() == "char" + ", std::char_traits<char>" + ", std::allocator<char> " + ">"
  {
    CharTraits();
    CharAllocator();
    hide Allocator, Argument;
  }

  lemma CharTraits()
    ensures Argument(TraitsName(), "char") == ", std::char_traits<char>"
  {
  }

  lemma CharAllocator()
    ensures Allocator("char") == ", std::allocator<char> "
  {
  }

  const EIGHT := "std::array<unsigned short, 8ul>"

  lemma VectorExample()
    ensures Canonical("std::vector<" + EIGHT + ", std::allocator<" + EIGHT + " > >") ==
            "std::vector<" + "std::array<uint16_t, 8>" + ">"
  {
    hide Canonical, Written, CoreText, Canon;
    SpellingsAgree(Vector(Array(Basic(UInt16), 8)));
    ArraySpelled();
    VectorSpelled(Array(Basic(UInt16), 8), EIGHT);
    VectorCanon();
    AllocatorText(EIGHT);
  }

  lemma ArraySpelled()
    ensures Written(Demangled(Array(Basic(UInt16), 8))) == EIGHT
  {
    ArrayOf(Demangled(Basic(UInt16)), "unsigned short");
    UnsignedShortSpelled();
    hide Written;
    EightText();
  }

  lemma UnsignedShortSpelled()
    ensures Written(Demangled(Basic(UInt16))) == "unsigned short"
  {
    WrittenBare(Words([WUnsigned, WShort]));
    JoinTwo(WUnsigned, WShort);
    UnsignedTexts();
    hide Written, Join, Spell;
  }

  lemma ArrayOf(elem: Spelled, text: string)
    requires elem == Demangled(Basic(UInt16))
    ensures var eight := " " + (Decimal(8) + ("ul" + ""));
            Written(elem) == text ==>
              Written(Demangled(Array(Basic(UInt16), 8))) == ARRAY + text + "," + eight + ">"
  {
    WrittenBare(Arr(elem, " ", 8, "ul", ""));
    hide Written, Decimal;
  }

  lemma EightText()
    ensures ARRAY + "unsigned short" + "," + (" " + (Decimal(8) + ("ul" + ""))) + ">" == EIGHT
  {
    assert Decimal(8) == "8";
    hide Decimal;
  }

  lemma VectorSpelled(elem: Type, text: string)
    requires Written(Demangled(elem)) == text
    ensures Written(Demangled(Vector(elem))) == VECTOR + text + Allocator(text) + ">"
  {
    WrittenBare(Vec(Demangled(elem), Allocator(Written(Demangled(elem)))));
    hide Written, Allocator;
  }

  lemma AllocatorText(text: string)
    requires text == EIGHT
    ensures VECTOR + text + Allocator(text) + ">" == "std::vector<" + text + ", std::allocator<" + text + " > >"
  {
    assert text[|text| - 1] == '>';
    AllocatorParts(text);
  }

  lemma AllocatorParts(text: string)
    requires text != "" && text[|text| - 1] == '>'
    ensures VECTOR + text + Allocator(text) + ">" == "std::vector<" + text + ", std::allocator<" + text + " > >"
  {
    var name, tail := "," + " std::allocator" + "<", " " + ">" + " " + ">";
    assert name == ", std::allocator<" && tail == " > >";
    hide VECTOR;
    assert VECTOR + text + Allocator(text) + ">" == VECTOR + text + name + text + tail;
  }

  lemma VectorCanon()
    ensures Canon(Vector(Array(Basic(UInt16), 8))) == "std::vector<" + "std::array<uint16_t, 8>" + ">"
  {
    CanonEight();
    hide Decimal;
  }

  lemma CanonEight()
    ensures Canon(Array(Basic(UInt16), 8)) == "std::array<uint16_t, 8>"
  {
    assert Decimal(8) == "8";
    hide Decimal;
  }
}
