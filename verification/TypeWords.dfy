/** The names of the scalar types: the words of C++, what they mean, and which of them the table of
    canonical_type in server/client/koheron-client.hpp understands. */
module TypeWords {
  import opened CanonicalType

  datatype Scalar = Bool | Char | Float | Double | Int8 | UInt8 | Int16 | UInt16 | Int32 | UInt32 | Int64 | UInt64

  /** The instrument's name of a scalar. */
  function Name(s: Scalar): string {
    match s
    case Bool => "bool"
    case Char => "char"
    case Float => "float"
    case Double => "double"
    case Int8 => "int8_t"
    case UInt8 => "uint8_t"
    case Int16 => "int16_t"
    case UInt16 => "uint16_t"
    case Int32 => "int32_t"
    case UInt32 => "uint32_t"
    case Int64 => "int64_t"
    case UInt64 => "uint64_t"
  }

  datatype Specifier = WBool | WChar | WFloat | WDouble | WSigned | WUnsigned | WShort | WLong | WInt

  function Spell(w: Specifier): string {
    match w
    case WBool => "bool"
    case WChar => "char"
    case WFloat => "float"
    case WDouble => "double"
    case WSigned => "signed"
    case WUnsigned => "unsigned"
    case WShort => "short"
    case WLong => "long"
    case WInt => "int"
  }

  /** The words with a space between any two. */
  function Join(ws: seq<Specifier>): string {
    if ws == [] then "" else if |ws| == 1 then Spell(ws[0]) else Spell(ws[0]) + [' '] + Join(ws[1..])
  }

  datatype CppType = NoScalar | Known(scalar: Scalar)

  /** How often each word occurs. */
  datatype Tally = Tally(bools: nat, chars: nat, floats: nat, doubles: nat, signeds: nat, unsigneds: nat,
                         shorts: nat, longs: nat, ints: nat)

  const NONE := Tally(0, 0, 0, 0, 0, 0, 0, 0, 0)

  function Add(w: Specifier, t: Tally): Tally {
    match w
    case WBool => t.(bools := t.bools + 1)
    case WChar => t.(chars := t.chars + 1)
    case WFloat => t.(floats := t.floats + 1)
    case WDouble => t.(doubles := t.doubles + 1)
    case WSigned => t.(signeds := t.signeds + 1)
    case WUnsigned => t.(unsigneds := t.unsigneds + 1)
    case WShort => t.(shorts := t.shorts + 1)
    case WLong => t.(longs := t.longs + 1)
    case WInt => t.(ints := t.ints + 1)
  }

  function Count(ws: seq<Specifier>): Tally {
    if ws == [] then NONE else Add(ws[0], Count(ws[1..]))
  }

  /** At least one word; at most one sign, at most one int, and one short or up to two longs. */
  predicate IntegerWords(t: Tally) {
    && t.bools == 0 && t.chars == 0 && t.floats == 0 && t.doubles == 0 && t != NONE
    && t.signeds + t.unsigneds <= 1 && t.ints <= 1
    && ((t.shorts == 0 && t.longs <= 2) || (t.shorts == 1 && t.longs == 0))
  }

  function Meant(t: Tally): CppType {
    if t == NONE.(bools := 1) then Known(Bool)
    else if t == NONE.(chars := 1) then Known(Char)
    else if t == NONE.(floats := 1) then Known(Float)
    else if t == NONE.(doubles := 1) then Known(Double)
    else if t == NONE.(signeds := 1, chars := 1) then Known(Int8)
    else if t == NONE.(unsigneds := 1, chars := 1) then Known(UInt8)
    else if !IntegerWords(t) then NoScalar
    else if t.shorts == 1 then Known(if t.unsigneds == 1 then UInt16 else Int16)
    else if t.longs > 0 then Known(if t.unsigneds == 1 then UInt64 else Int64)
    else Known(if t.unsigneds == 1 then UInt32 else Int32)
  }

  /** What the words mean in C++, where their order does not matter, with 32-bit int and 64-bit
      long. */
  function CppScalar(ws: seq<Specifier>): CppType {
    Meant(Count(ws))
  }

  /** A size and then perhaps "int". */
  predicate SizeFirst(ws: seq<Specifier>) {
    || ws == [] || ws == [WShort] || ws == [WLong] || ws == [WLong, WLong]
    || ws == [WInt] || ws == [WShort, WInt] || ws == [WLong, WInt] || ws == [WLong, WLong, WInt]
  }

  /** No "signed" except before char, "unsigned" only first, and "int" only last. */
  predicate Understood(ws: seq<Specifier>) {
    || ws == [WBool] || ws == [WChar] || ws == [WFloat] || ws == [WDouble]
    || ws == [WSigned, WChar] || ws == [WUnsigned, WChar]
    || (ws != [] && SizeFirst(if ws[0] == WUnsigned then ws[1..] else ws))
  }

  // ---------------------------------------------------------------- words and text

  predicate WordChar(c: char) {
    'a' <= c <= 'z' || '0' <= c <= '9' || c == '_' || c == ' '
  }

  predicate IsWord(w: string) {
    w != "" && w[0] != ' ' && w[|w| - 1] != ' ' && forall i :: 0 <= i < |w| ==> WordChar(w[i])
  }

  lemma NamesAreWords(s: Scalar)
    ensures IsWord(Name(s))
  {
  }

  predicate IsLetter(c: char) {
    'a' <= c <= 'z'
  }

  lemma SpelledInLetters(w: Specifier)
    ensures Spell(w) != "" && forall i :: 0 <= i < |Spell(w)| ==> IsLetter(Spell(w)[i])
  {
  }

  lemma {:induction false} JoinIsWord(ws: seq<Specifier>)
    requires ws != []
    ensures IsWord(Join(ws)) && '_' !in Join(ws)
  {
    hide Spell;
    SpelledInLetters(ws[0]);
    var w := Spell(ws[0]);
    if |ws| > 1 {
      JoinIsWord(ws[1..]);
    }
  }

  lemma SameSpelling(v: Specifier, w: Specifier)
    requires Spell(v) == Spell(w)
    ensures v == w
  {
  }

  /** Where two texts of words agree, so do their first words and what follows them. */
  lemma FirstWord(v: string, w: string, x: string, y: string)
    requires v != "" && w != "" && (forall i :: 0 <= i < |v| ==> IsLetter(v[i]))
    requires forall i :: 0 <= i < |w| ==> IsLetter(w[i])
    requires (x == "" || x[0] == ' ') && (y == "" || y[0] == ' ') && v + x == w + y
    ensures v == w && x == y
  {
    LetterRun(v, x);
    LetterRun(w, y);
    assert v == (v + x)[..|v|] && x == (v + x)[|v|..];
    assert w == (w + y)[..|w|] && y == (w + y)[|w|..];
  }

  lemma LetterRun(v: string, x: string)
    requires (forall i :: 0 <= i < |v| ==> IsLetter(v[i])) && (x == "" || x[0] == ' ')
    ensures forall i :: 0 <= i < |v| ==> IsLetter((v + x)[i])
    ensures |v| < |v + x| ==> !IsLetter((v + x)[|v|])
  {
  }

  /** The text of the words behind the first one. */
  function Tail(ws: seq<Specifier>): string {
    if |ws| <= 1 then "" else [' '] + Join(ws[1..])
  }

  lemma JoinFirst(ws: seq<Specifier>)
    requires ws != []
    ensures Join(ws) == Spell(ws[0]) + Tail(ws)
  {
    hide Spell;
  }

  /** Different sequences of words are different texts. */
  lemma {:induction false} JoinDiffers(vs: seq<Specifier>, ws: seq<Specifier>)
    requires vs != [] && ws != [] && Join(vs) == Join(ws)
    ensures vs == ws
    decreases |vs|
  {
    hide Join, Spell;
    JoinFirst(vs);
    JoinFirst(ws);
    SpelledInLetters(vs[0]);
    SpelledInLetters(ws[0]);
    FirstWord(Spell(vs[0]), Spell(ws[0]), Tail(vs), Tail(ws));
    SameSpelling(vs[0], ws[0]);
    if |vs| > 1 && |ws| > 1 {
      assert Join(vs[1..]) == Tail(vs)[1..] == Tail(ws)[1..] == Join(ws[1..]);
      JoinDiffers(vs[1..], ws[1..]);
      assert vs == [vs[0]] + vs[1..] && ws == [ws[0]] + ws[1..];
    }
  }

  // ---------------------------------------------------------------- the table

  lemma JoinOne(w: Specifier)
    ensures Join([w]) == Spell(w)
  {
  }

  lemma JoinMore(w: Specifier, ws: seq<Specifier>)
    requires ws != []
    ensures Join([w] + ws) == Spell(w) + [' '] + Join(ws)
  {
    assert ([w] + ws)[1..] == ws;
  }

  lemma JoinTwo(v: Specifier, w: Specifier)
    ensures Join([v, w]) == Spell(v) + [' '] + Spell(w)
  {
    hide Join, Spell;
    JoinOne(w);
    JoinMore(v, [w]);
    assert [v] + [w] == [v, w];
  }

  lemma JoinThree(u: Specifier, v: Specifier, w: Specifier)
    ensures Join([u, v, w]) == Spell(u) + [' '] + (Spell(v) + [' '] + Spell(w))
  {
    hide Join, Spell;
    JoinTwo(v, w);
    JoinMore(u, [v, w]);
    assert [u] + [v, w] == [u, v, w];
  }

  lemma JoinFour(t: Specifier, u: Specifier, v: Specifier, w: Specifier)
    ensures Join([t, u, v, w]) == Spell(t) + [' '] + (Spell(u) + [' '] + (Spell(v) + [' '] + Spell(w)))
  {
    hide Join, Spell;
    JoinThree(u, v, w);
    JoinMore(t, [u, v, w]);
    assert [t] + [u, v, w] == [t, u, v, w];
  }

  /** The words ws are the text of a row only if they are the words of the row. */
  lemma Row1(ws: seq<Specifier>, w: Specifier)
    requires ws != []
    ensures Join(ws) == Spell(w) <==> ws == [w]
  {
    hide Join, Spell;
    JoinOne(w);
    if Join(ws) == Spell(w) {
      JoinDiffers(ws, [w]);
    }
  }

  lemma Row2(ws: seq<Specifier>, v: Specifier, w: Specifier)
    requires ws != []
    ensures Join(ws) == Spell(v) + [' '] + Spell(w) <==> ws == [v, w]
  {
    hide Join, Spell;
    JoinTwo(v, w);
    if Join(ws) == Spell(v) + [' '] + Spell(w) {
      JoinDiffers(ws, [v, w]);
    }
  }

  lemma Row3(ws: seq<Specifier>, u: Specifier, v: Specifier, w: Specifier)
    requires ws != []
    ensures Join(ws) == Spell(u) + [' '] + (Spell(v) + [' '] + Spell(w)) <==> ws == [u, v, w]
  {
    hide Join, Spell;
    JoinThree(u, v, w);
    if Join(ws) == Spell(u) + [' '] + (Spell(v) + [' '] + Spell(w)) {
      JoinDiffers(ws, [u, v, w]);
    }
  }

  lemma Row4(ws: seq<Specifier>, t: Specifier, u: Specifier, v: Specifier, w: Specifier)
    requires ws != []
    ensures Join(ws) == Spell(t) + [' '] + (Spell(u) + [' '] + (Spell(v) + [' '] + Spell(w))) <==> ws == [t, u, v, w]
  {
    hide Join, Spell;
    JoinFour(t, u, v, w);
    if Join(ws) == Spell(t) + [' '] + (Spell(u) + [' '] + (Spell(v) + [' '] + Spell(w))) {
      JoinDiffers(ws, [t, u, v, w]);
    }
  }

  /** What the rows of the table say of the words. */
  function ByteRow(ws: seq<Specifier>): CppType {
    if ws == [WBool] then Known(Bool)
    else if ws == [WChar] then Known(Char)
    else if ws == [WFloat] then Known(Float)
    else if ws == [WDouble] then Known(Double)
    else if ws == [WSigned, WChar] || ws == [WSigned, WInt] || ws == [WSigned] then Known(Int8)
    else NoScalar
  }

  function SignedRow(ws: seq<Specifier>): CppType {
    if ws == [WShort] || ws == [WShort, WInt] then Known(Int16)
    else if ws == [WInt] then Known(Int32)
    else if ws == [WLong] || ws == [WLong, WInt] || ws == [WLong, WLong] || ws == [WLong, WLong, WInt]
    then Known(Int64)
    else NoScalar
  }

  function UnsignedRow(ws: seq<Specifier>): CppType {
    if ws == [WUnsigned, WChar] then Known(UInt8)
    else if ws == [WUnsigned, WShort] || ws == [WUnsigned, WShort, WInt] then Known(UInt16)
    else if ws == [WUnsigned, WInt] || ws == [WUnsigned] then Known(UInt32)
    else NoScalar
  }

  function UnsignedLongRow(ws: seq<Specifier>): CppType {
    if ws == [WUnsigned, WLong] || ws == [WUnsigned, WLong, WInt]
       || ws == [WUnsigned, WLong, WLong] || ws == [WUnsigned, WLong, WLong, WInt] then Known(UInt64)
    else NoScalar
  }

  function Row(ws: seq<Specifier>): CppType {
    if ByteRow(ws).Known? then ByteRow(ws)
    else if SignedRow(ws).Known? then SignedRow(ws)
    else if UnsignedRow(ws).Known? then UnsignedRow(ws)
    else UnsignedLongRow(ws)
  }

  function Named(t: CppType): string {
    if t.Known? then Name(t.scalar) else ""
  }

  lemma SignedTexts()
    ensures Spell(WShort) == "short" && Spell(WInt) == "int" && Spell(WLong) == "long"
    ensures Spell(WShort) + [' '] + Spell(WInt) == "short int" && Spell(WLong) + [' '] + Spell(WInt) == "long int"
    ensures Spell(WLong) + [' '] + Spell(WLong) == "long long"
    ensures Spell(WLong) + [' '] + (Spell(WLong) + [' '] + Spell(WInt)) == "long long int"
  {
  }

  lemma UnsignedTexts()
    ensures Spell(WUnsigned) == "unsigned" && Spell(WUnsigned) + [' '] + Spell(WChar) == "unsigned char"
    ensures Spell(WUnsigned) + [' '] + Spell(WShort) == "unsigned short"
    ensures Spell(WUnsigned) + [' '] + Spell(WInt) == "unsigned int"
    ensures Spell(WUnsigned) + [' '] + (Spell(WShort) + [' '] + Spell(WInt)) == "unsigned short int"
  {
  }

  lemma UnsignedLongTexts()
    ensures Spell(WUnsigned) + [' '] + Spell(WLong) == "unsigned long"
    ensures Spell(WUnsigned) + [' '] + (Spell(WLong) + [' '] + Spell(WInt)) == "unsigned long int"
    ensures Spell(WUnsigned) + [' '] + (Spell(WLong) + [' '] + Spell(WLong)) == "unsigned long long"
    ensures Spell(WUnsigned) + [' '] + (Spell(WLong) + [' '] + (Spell(WLong) + [' '] + Spell(WInt))) ==
      "unsigned long long int"
  {
  }

  lemma ByteTexts()
    ensures Spell(WBool) == "bool" && Spell(WChar) == "char" && Spell(WFloat) == "float"
    ensures Spell(WDouble) == "double" && Spell(WSigned) == "signed"
    ensures Spell(WSigned) + [' '] + Spell(WChar) == "signed char"
    ensures Spell(WSigned) + [' '] + Spell(WInt) == "signed int"
  {
  }

  lemma ByteNameIs(ws: seq<Specifier>)
    requires ws != []
    ensures ByteName(Join(ws)) == Named(ByteRow(ws))
  {
    hide Join, Spell;
    ByteTexts();
    Row1(ws, WBool);
    Row1(ws, WChar);
    Row1(ws, WFloat);
    Row1(ws, WDouble);
    Row1(ws, WSigned);
    Row2(ws, WSigned, WChar);
    Row2(ws, WSigned, WInt);
  }

  lemma SignedNameIs(ws: seq<Specifier>)
    requires ws != []
    ensures SignedName(Join(ws)) == Named(SignedRow(ws))
  {
    hide Join, Spell;
    SignedTexts();
    Row1(ws, WShort);
    Row1(ws, WInt);
    Row1(ws, WLong);
    Row2(ws, WShort, WInt);
    Row2(ws, WLong, WInt);
    Row2(ws, WLong, WLong);
    Row3(ws, WLong, WLong, WInt);
  }

  lemma UnsignedNameIs(ws: seq<Specifier>)
    requires ws != []
    ensures UnsignedName(Join(ws)) == Named(UnsignedRow(ws))
  {
    hide Join, Spell;
    UnsignedTexts();
    Row1(ws, WUnsigned);
    Row2(ws, WUnsigned, WChar);
    Row2(ws, WUnsigned, WShort);
    Row2(ws, WUnsigned, WInt);
    Row3(ws, WUnsigned, WShort, WInt);
  }

  lemma UnsignedLongNameIs(ws: seq<Specifier>)
    requires ws != []
    ensures UnsignedLongName(Join(ws)) == Named(UnsignedLongRow(ws))
  {
    hide Join, Spell;
    UnsignedLongTexts();
    Row2(ws, WUnsigned, WLong);
    Row3(ws, WUnsigned, WLong, WInt);
    Row3(ws, WUnsigned, WLong, WLong);
    Row4(ws, WUnsigned, WLong, WLong, WInt);
  }

  lemma FourthIsColon(w: string)
    requires "std::basic_string<" <= w
    ensures w[3] == ':'
  {
  }

  lemma NameNotEmpty(s: Scalar)
    ensures Name(s) != ""
  {
  }

  /** The table reads exactly its rows. */
  lemma FixedNameIs(ws: seq<Specifier>)
    requires ws != []
    ensures FixedName(Join(ws)) == Named(Row(ws))
  {
    hide Join, ByteName, SignedName, UnsignedName, UnsignedLongName, Name;
    hide ByteRow, SignedRow, UnsignedRow, UnsignedLongRow;
    ByteNameIs(ws);
    SignedNameIs(ws);
    UnsignedNameIs(ws);
    UnsignedLongNameIs(ws);
    forall s: Scalar
      ensures Name(s) != ""
    {
      NameNotEmpty(s);
    }
    JoinIsWord(ws);
    if "std::basic_string<" <= Join(ws) {
      FourthIsColon(Join(ws));
    }
  }

  // ---------------------------------------------------------------- rows and meanings

  lemma CountUpTo4(ws: seq<Specifier>)
    requires 1 <= |ws| <= 4
    ensures |ws| == 1 ==> Count(ws) == Add(ws[0], NONE)
    ensures |ws| == 2 ==> Count(ws) == Add(ws[0], Add(ws[1], NONE))
    ensures |ws| == 3 ==> Count(ws) == Add(ws[0], Add(ws[1], Add(ws[2], NONE)))
    ensures |ws| == 4 ==> Count(ws) == Add(ws[0], Add(ws[1], Add(ws[2], Add(ws[3], NONE))))
  {
    hide Add;
    if |ws| > 1 {
      CountUpTo4(ws[1..]);
    }
    assert Count([]) == NONE;
  }

  function Total(t: Tally): nat {
    t.bools + t.chars + t.floats + t.doubles + t.signeds + t.unsigneds + t.shorts + t.longs + t.ints
  }

  lemma TotalAdd(w: Specifier, t: Tally)
    ensures Total(Add(w, t)) == Total(t) + 1
  {
  }

  lemma {:induction false} CountsAll(ws: seq<Specifier>)
    ensures Total(Count(ws)) == |ws|
  {
    hide Add, Total;
    if ws != [] {
      CountsAll(ws[1..]);
      TotalAdd(ws[0], Count(ws[1..]));
    } else {
      assert Total(NONE) == 0 by { NothingTotal(); }
    }
  }

  lemma NothingTotal()
    ensures Total(NONE) == 0
  {
  }

  /** The rows that the words of C++ do not confirm. */
  predicate Misread(ws: seq<Specifier>) {
    ws == [WSigned] || ws == [WSigned, WInt]
  }

  lemma ByteRowMeans(ws: seq<Specifier>)
    requires ByteRow(ws).Known?
    ensures if Misread(ws) then CppScalar(ws) == Known(Int32) && !Understood(ws) && ByteRow(ws) == Known(Int8)
            else Understood(ws) && ByteRow(ws) == CppScalar(ws)
  {
    hide Count;
    CountUpTo4(ws);
  }

  lemma SignedRowMeans(ws: seq<Specifier>)
    requires SignedRow(ws).Known?
    ensures Understood(ws) && SignedRow(ws) == CppScalar(ws)
  {
    SizesAreUnderstood(ws);
    SignedCounts();
    hide Count, Understood;
  }

  lemma UnsignedRowMeans(ws: seq<Specifier>)
    requires UnsignedRow(ws).Known?
    ensures Understood(ws) && UnsignedRow(ws) == CppScalar(ws)
  {
    SizesAreUnderstood(ws);
    UnsignedCounts();
    hide Count, Understood;
  }

  lemma UnsignedLongRowMeans(ws: seq<Specifier>)
    requires UnsignedLongRow(ws).Known?
    ensures Understood(ws) && UnsignedLongRow(ws) == CppScalar(ws)
  {
    SizesAreUnderstood(ws);
    UnsignedLongCounts();
    hide Count, Understood;
  }

  lemma SignedCounts()
    ensures Count([WShort]) == NONE.(shorts := 1) && Count([WShort, WInt]) == NONE.(shorts := 1, ints := 1)
    ensures Count([WInt]) == NONE.(ints := 1)
    ensures Count([WLong]) == NONE.(longs := 1) && Count([WLong, WInt]) == NONE.(longs := 1, ints := 1)
    ensures Count([WLong, WLong]) == NONE.(longs := 2)
    ensures Count([WLong, WLong, WInt]) == NONE.(longs := 2, ints := 1)
  {
    hide Count;
    CountUpTo4([WShort]);
    CountUpTo4([WShort, WInt]);
    CountUpTo4([WInt]);
    CountUpTo4([WLong]);
    CountUpTo4([WLong, WInt]);
    CountUpTo4([WLong, WLong]);
    CountUpTo4([WLong, WLong, WInt]);
  }

  lemma UnsignedCounts()
    ensures Count([WUnsigned, WChar]) == NONE.(unsigneds := 1, chars := 1)
    ensures Count([WUnsigned, WShort]) == NONE.(unsigneds := 1, shorts := 1)
    ensures Count([WUnsigned, WShort, WInt]) == NONE.(unsigneds := 1, shorts := 1, ints := 1)
    ensures Count([WUnsigned, WInt]) == NONE.(unsigneds := 1, ints := 1)
    ensures Count([WUnsigned]) == NONE.(unsigneds := 1)
  {
    hide Count;
    CountUpTo4([WUnsigned, WChar]);
    CountUpTo4([WUnsigned, WShort]);
    CountUpTo4([WUnsigned, WShort, WInt]);
    CountUpTo4([WUnsigned, WInt]);
    CountUpTo4([WUnsigned]);
  }

  lemma UnsignedLongCounts()
    ensures Count([WUnsigned, WLong]) == NONE.(unsigneds := 1, longs := 1)
    ensures Count([WUnsigned, WLong, WInt]) == NONE.(unsigneds := 1, longs := 1, ints := 1)
    ensures Count([WUnsigned, WLong, WLong]) == NONE.(unsigneds := 1, longs := 2)
    ensures Count([WUnsigned, WLong, WLong, WInt]) == NONE.(unsigneds := 1, longs := 2, ints := 1)
  {
    hide Count;
    CountUpTo4([WUnsigned, WLong]);
    CountUpTo4([WUnsigned, WLong, WInt]);
    CountUpTo4([WUnsigned, WLong, WLong]);
    CountUpTo4([WUnsigned, WLong, WLong, WInt]);
  }

  lemma SizesAreUnderstood(ws: seq<Specifier>)
    ensures SignedRow(ws).Known? || UnsignedRow(ws).Known? || UnsignedLongRow(ws).Known? ==> Understood(ws)
  {
  }

  lemma UnderstoodHasRow(ws: seq<Specifier>)
    requires Understood(ws)
    ensures Row(ws).Known? && !Misread(ws)
  {
    if ws[0] == WUnsigned {
      assert ws == [WUnsigned] + ws[1..];
    }
  }

  /** The scalars that one word of their own names. */
  predicate OfOneWord(t: Tally) {
    t == NONE.(bools := 1) || t == NONE.(chars := 1) || t == NONE.(floats := 1) || t == NONE.(doubles := 1)
  }

  lemma MeantByOneWord(t: Tally)
    requires Meant(t).Known?
    ensures var s := Meant(t).scalar; s.Bool? || s.Char? || s.Float? || s.Double? ==> OfOneWord(t)
  {
  }

  lemma OneWordIsUnderstood(ws: seq<Specifier>)
    requires |ws| == 1 && OfOneWord(Count(ws))
    ensures Understood(ws)
  {
    hide Count;
    CountUpTo4(ws);
    assert ws == [ws[0]];
  }

  /** Words that mean a scalar of no fixed width are understood. */
  lemma FixedWidth(ws: seq<Specifier>)
    requires CppScalar(ws).Known? && !Understood(ws)
    ensures var s := CppScalar(ws).scalar; !s.Bool? && !s.Char? && !s.Float? && !s.Double?
  {
    hide Count, Meant, Understood;
    CountsAll(ws);
    MeantByOneWord(Count(ws));
    if OfOneWord(Count(ws)) {
      OneWordIsUnderstood(ws);
    }
  }

  lemma Underscore(s: Scalar)
    ensures !s.Bool? && !s.Char? && !s.Float? && !s.Double? ==> '_' in Name(s)
  {
    var n := Name(s);
    assert |n| >= 4 && n[|n| - 2] in n;
  }

  // ---------------------------------------------------------------- what becomes of words

  /** The canonical form of a scalar's words: the name in the table, or the words themselves. */
  function WordForm(ws: seq<Specifier>): string {
    if FixedName(Join(ws)) != "" then FixedName(Join(ws)) else Join(ws)
  }

  lemma WordFormIs(ws: seq<Specifier>)
    requires ws != []
    ensures WordForm(ws) == if Row(ws).Known? then Name(Row(ws).scalar) else Join(ws)
  {
    hide FixedName, Join, Name, Row;
    FixedNameIs(ws);
    if Row(ws).Known? {
      NameNotEmpty(Row(ws).scalar);
    }
  }

  /** The table names the type that the words mean exactly when they are understood. */
  lemma WordFormIsRight(ws: seq<Specifier>)
    requires CppScalar(ws).Known?
    ensures WordForm(ws) == Name(CppScalar(ws).scalar) <==> Understood(ws)
  {
    hide Join, FixedName, Name, CppScalar, Understood, ByteRow, SignedRow, UnsignedRow, UnsignedLongRow, Misread;
    NotNothing(ws);
    var s := CppScalar(ws).scalar;
    FixedNameIs(ws);
    JoinIsWord(ws);
    NameNotEmpty(s);
    if Understood(ws) {
      UnderstoodHasRow(ws);
    } else {
      FixedWidth(ws);
      Underscore(s);
    }
    if Row(ws).Known? {
      RowMeans(ws);
      NameNotEmpty(Row(ws).scalar);
    }
  }

  lemma NotNothing(ws: seq<Specifier>)
    requires CppScalar(ws).Known?
    ensures ws != []
  {
  }

  lemma RowMeans(ws: seq<Specifier>)
    requires Row(ws).Known?
    ensures if Understood(ws) then Row(ws) == CppScalar(ws)
            else CppScalar(ws).Known? && Name(CppScalar(ws).scalar) != Name(Row(ws).scalar)
  {
    hide CppScalar, Understood, ByteRow, SignedRow, UnsignedRow, UnsignedLongRow, Misread;
    if ByteRow(ws).Known? {
      ByteRowMeans(ws);
    } else if SignedRow(ws).Known? {
      SignedRowMeans(ws);
    } else if UnsignedRow(ws).Known? {
      UnsignedRowMeans(ws);
    } else {
      UnsignedLongRowMeans(ws);
    }
  }
}
