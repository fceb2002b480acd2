/** server/client/koheron-client.hpp: the string scans under op_detail, and how they behave on
    compact JSON text. A position above the text stands for npos. */
module JsonText {

  // ---------------------------------------------------------------- the scans

  /** Larger than every position in s. */
  function Npos(s: string): nat {
    |s| + 1
  }

  predicate MatchAt(s: string, key: string, p: nat) {
    p + |key| <= |s| && s[p..p + |key|] == key
  }

  /** std::string::find */
  function Find(s: string, key: string, from: nat): (r: nat)
    ensures r == Npos(s) || (from <= r <= |s| && MatchAt(s, key, r))
    ensures forall p :: from <= p < r ==> !MatchAt(s, key, p)
    decreases |s| - from
  {
    if from + |key| > |s| then Npos(s)
    else if MatchAt(s, key, from) then from
    else Find(s, key, from + 1)
  }

  datatype Text = Text(next: nat, value: string)

  /** The rest of parse_string, inside the quotes. */
  function ReadString(s: string, i: nat, raw: string): (r: Text)
    ensures r.next == Npos(s) || i < r.next <= |s|
    decreases |s| - i
  {
    if i >= |s| then Text(Npos(s), "")
    else if s[i] == '\\' && i + 1 < |s| then ReadString(s, i + 2, raw + [s[i + 1]])
    else if s[i] == '"' then Text(i + 1, raw)
    else ReadString(s, i + 1, raw + [s[i]])
  }

  /** parse_string; its result stays empty when there is no string at pos. */
  function ParseString(s: string, pos: nat): (r: Text)
    ensures r.next == Npos(s) || pos < r.next <= |s|
  {
    if pos >= |s| || s[pos] != '"' then Text(Npos(s), "") else ReadString(s, pos + 1, "")
  }

  predicate IsWs(c: char) {
    c == ' ' || c == '\t' || c == '\n' || c == '\r'
  }

  /** skip_ws */
  function SkipWs(s: string, p: nat): (r: nat)
    ensures p <= r && (p <= |s| ==> r <= |s|)
    decreases |s| - p
  {
    if p < |s| && IsWs(s[p]) then SkipWs(s, p + 1) else p
  }

  /** The loop of skip_object from position i. */
  function Scan(s: string, i: nat, depth: int, inString: bool, escaped: bool): (r: nat)
    ensures r == Npos(s) || i < r <= |s|
    decreases |s| - i
  {
    if i >= |s| then Npos(s)
    else if inString then
      if escaped then Scan(s, i + 1, depth, true, false)
      else if s[i] == '\\' then Scan(s, i + 1, depth, true, true)
      else Scan(s, i + 1, depth, s[i] != '"', false)
    else if s[i] == '"' then Scan(s, i + 1, depth, true, escaped)
    else if s[i] == '{' || s[i] == '[' then Scan(s, i + 1, depth + 1, false, escaped)
    else if s[i] == '}' || s[i] == ']' then
      if depth == 1 then i + 1 else Scan(s, i + 1, depth - 1, false, escaped)
    else Scan(s, i + 1, depth, false, escaped)
  }

  function SkipObject(s: string, pos: nat): (r: nat)
    ensures r == Npos(s) || pos < r <= |s|
  {
    Scan(s, pos, 0, false, false)
  }

  const ULONG_MAX: nat := 0xFFFF_FFFF_FFFF_FFFF

  predicate IsDigit(c: char) {
    '0' <= c <= '9'
  }

  /** The number that the digits from position i on extend v to. */
  function Digits(s: string, i: nat, v: nat): nat
    decreases |s| - i
  {
    if i < |s| && IsDigit(s[i]) then Digits(s, i + 1, 10 * v + (s[i] as int - '0' as int)) else v
  }

  /** isspace, as strtoul skips it. */
  function SkipSpace(s: string, p: nat): nat
    decreases |s| - p
  {
    if p < |s| && (IsWs(s[p]) || 11 <= s[p] as int <= 12) then SkipSpace(s, p + 1) else p
  }

  datatype Number = NoNumber | Number(value: nat)

  /** parse_uint: strtoul in base ten, kept in 32 bits. Values beyond unsigned long saturate, and
      a minus sign negates modulo its range. */
  function ParseUint(s: string, pos: nat): Number {
    var p := SkipSpace(s, pos);
    var minus := p < |s| && s[p] == '-';
    var q := if minus || (p < |s| && s[p] == '+') then p + 1 else p;
    if q >= |s| || !IsDigit(s[q]) then NoNumber
    else
      var v := Digits(s, q, 0);
      Number((if v > ULONG_MAX then ULONG_MAX else if minus then (ULONG_MAX + 1 - v) else v) % 0x1_0000_0000)
  }

  // ---------------------------------------------------------------- compact JSON

  /** A printed piece: a quoted name with its colon, a quoted string, a number, or a delimiter. */
  datatype Token = Key(name: string) | Str(value: string) | Num(n: nat) | Punct(c: char)

  function Decimal(n: nat): (r: string)
    ensures r != "" && forall i :: 0 <= i < |r| ==> IsDigit(r[i])
  {
    if n < 10 then [(n + '0' as int) as char] else Decimal(n / 10) + [(n % 10 + '0' as int) as char]
  }

  function Quoted(s: string): string {
    ['"'] + s + ['"']
  }

  function Show(t: Token): (r: string)
    ensures r != ""
  {
    match t
    case Key(name) => Quoted(name) + [':']
    case Str(value) => Quoted(value)
    case Num(n) => Decimal(n)
    case Punct(c) => [c]
  }

  function Render(ts: seq<Token>): string {
    if ts == [] then "" else Show(ts[0]) + Render(ts[1..])
  }

  /** No quote and no backslash, so that printing quotes it without escapes. */
  predicate Plain(s: string) {
    forall i :: 0 <= i < |s| ==> s[i] != '"' && s[i] != '\\'
  }

  predicate Ok(t: Token) {
    match t
    case Key(name) => Plain(name)
    case Str(value) => Plain(value)
    case Num(_) => true
    case Punct(c) => c == '{' || c == '}' || c == '[' || c == ']' || c == ','
  }

  predicate AllOk(ts: seq<Token>) {
    forall i :: 0 <= i < |ts| ==> Ok(ts[i])
  }

  function Len(ts: seq<Token>): nat {
    |Render(ts)|
  }

  /** At position p of s the pieces ts are printed. */
  predicate Here(s: string, p: nat, ts: seq<Token>) {
    p + Len(ts) <= |s| && s[p..p + Len(ts)] == Render(ts)
  }

  lemma {:induction false} RenderConcat(a: seq<Token>, b: seq<Token>)
    ensures Render(a + b) == Render(a) + Render(b)
  {
    if a == [] {
      assert a + b == b;
    } else {
      assert (a + b)[1..] == a[1..] + b;
      RenderConcat(a[1..], b);
    }
  }

  lemma Move(s: string, p: nat, a: seq<Token>, b: seq<Token>)
    requires Here(s, p, a + b)
    ensures Here(s, p, a) && Here(s, p + Len(a), b) && Len(a + b) == Len(a) + Len(b)
  {
    RenderConcat(a, b);
    hide Render;
    var r := s[p..p + Len(a + b)];
    assert s[p..p + Len(a)] == r[..Len(a)];
    assert s[p + Len(a)..p + Len(a) + Len(b)] == r[Len(a)..];
  }

  lemma One(s: string, p: nat, t: Token)
    ensures Len([t]) == |Show(t)|
    ensures Here(s, p, [t]) <==> MatchAt(s, Show(t), p)
  {
    assert Render([t][1..]) == "";
  }

  /** The first piece and the rest. */
  lemma Peel(s: string, p: nat, ts: seq<Token>)
    requires Here(s, p, ts) && ts != []
    ensures MatchAt(s, Show(ts[0]), p)
    ensures Here(s, p + |Show(ts[0])|, ts[1..]) && Len(ts) == |Show(ts[0])| + Len(ts[1..])
  {
    hide *;
    assert ts == [ts[0]] + ts[1..];
    Move(s, p, [ts[0]], ts[1..]);
    One(s, p, ts[0]);
  }

  // ---------------------------------------------------------------- find

  predicate IsLetter(c: char) {
    'a' <= c <= 'z'
  }

  /** A name that find is asked for. */
  predicate IsName(k: string) {
    Plain(k) && k != "" && IsLetter(k[0])
  }

  /** What find looks for: the quoted name, its colon, and what the value starts with. */
  function Wanted(k: string, start: string): string {
    Quoted(k) + [':'] + start
  }

  lemma SkipPositions(s: string, key: string, p: nat, q: nat)
    requires p <= q <= |s|
    requires Free(s, key, p, q)
    ensures Find(s, key, p) == Find(s, key, q)
  {
    FindIsLeast(s, key, p);
    FindIsLeast(s, key, q);
  }

  /** npos only when there is no match. */
  lemma {:induction false} FindIsLeast(s: string, key: string, from: nat)
    ensures forall p :: from <= p && MatchAt(s, key, p) ==> Find(s, key, from) <= p
    decreases |s| - from
  {
    if from + |key| <= |s| && !MatchAt(s, key, from) {
      FindIsLeast(s, key, from + 1);
    }
  }

  predicate QuotedAt(s: string, p: nat, v: string) {
    && p + |v| + 2 <= |s| && s[p] == '"' && s[p + 1 + |v|] == '"'
    && forall j :: 0 <= j < |v| ==> s[p + 1 + j] == v[j]
  }

  lemma QuotedChars(s: string, p: nat, v: string, tail: string)
    requires MatchAt(s, Quoted(v) + tail, p)
    ensures QuotedAt(s, p, v) && (tail != "" ==> p + |v| + 2 < |s| && s[p + |v| + 2] == tail[0])
  {
    var w := Quoted(v) + tail;
    assert forall j :: 0 <= j < |w| ==> w[j] == s[p + j];
    assert w[0] == '"' && w[|v| + 1] == '"';
    assert forall j :: 0 <= j < |v| ==> v[j] == w[1 + j];
  }

  lemma WantedAt(s: string, i: nat, k: string, start: string)
    requires MatchAt(s, Wanted(k, start), i)
    ensures QuotedAt(s, i, k) && i + |k| + 2 < |s| && s[i + |k| + 2] == ':'
  {
    assert Wanted(k, start) == Quoted(k) + ([':'] + start);
    QuotedChars(s, i, k, [':'] + start);
  }

  lemma KeyAt(s: string, p: nat, name: string)
    requires MatchAt(s, Show(Key(name)), p)
    ensures QuotedAt(s, p, name) && p + |name| + 2 < |s| && s[p + |name| + 2] == ':'
  {
    QuotedChars(s, p, name, [':']);
  }

  lemma StrAt(s: string, p: nat, value: string)
    requires MatchAt(s, Show(Str(value)), p)
    ensures QuotedAt(s, p, value)
  {
    assert Quoted(value) + "" == Quoted(value);
    QuotedChars(s, p, value, "");
  }

  lemma NumAt(s: string, p: nat, n: nat)
    requires MatchAt(s, Decimal(n), p)
    ensures forall q :: p <= q < p + |Decimal(n)| ==> IsDigit(s[q])
  {
    var w := Decimal(n);
    assert forall q :: p <= q < p + |w| ==> s[q] == w[q - p];
  }

  lemma NoQuoteInside(s: string, p: nat, v: string)
    requires Plain(v) && QuotedAt(s, p, v)
    ensures forall q :: p < q <= p + |v| ==> s[q] != '"'
  {
    assert forall q :: p < q <= p + |v| ==> s[q] == v[q - p - 1];
  }

  /** Where two plain strings are quoted at the same place, they are the same. */
  lemma SameName(s: string, p: nat, k: string, v: string)
    requires Plain(k) && Plain(v) && QuotedAt(s, p, k) && QuotedAt(s, p, v)
    ensures k == v
  {
    NoQuoteInside(s, p, k);
    NoQuoteInside(s, p, v);
  }

  /** A name is found in another quoted string neither at its opening quote, unless they are equal
      and a colon follows, nor further on. */
  lemma NotInQuoted(s: string, p: nat, v: string, k: string, start: string, i: nat)
    requires IsName(k) && Plain(v) && QuotedAt(s, p, v) && p <= i < p + |v| + 2
    requires p + |v| + 2 < |s| ==> !IsLetter(s[p + |v| + 2]) && (v == k ==> s[p + |v| + 2] != ':')
    ensures !MatchAt(s, Wanted(k, start), i)
  {
    hide MatchAt, Wanted, Quoted;
    if MatchAt(s, Wanted(k, start), i) {
      WantedAt(s, i, k, start);
      assert s[i + 1] == k[0];
      NoQuoteInside(s, p, v);
      SameName(s, p, k, v);
    }
  }

  /** No name and no colon starts at position p. */
  predicate Boundary(s: string, p: nat) {
    p < |s| ==> !IsLetter(s[p]) && s[p] != ':'
  }

  lemma NoQuoteNoName(s: string, i: nat, k: string, start: string)
    requires i < |s| && s[i] != '"'
    ensures !MatchAt(s, Wanted(k, start), i)
  {
    if MatchAt(s, Wanted(k, start), i) {
      WantedAt(s, i, k, start);
    }
  }

  lemma NotInKey(s: string, p: nat, name: string, k: string, start: string, i: nat)
    requires IsName(k) && Plain(name) && name != k && MatchAt(s, Show(Key(name)), p)
    requires p <= i < p + |Show(Key(name))|
    ensures !MatchAt(s, Wanted(k, start), i)
  {
    hide Wanted, QuotedAt, Plain;
    KeyAt(s, p, name);
    if i == p + |name| + 2 {
      NoQuoteNoName(s, i, k, start);
    } else {
      NotInQuoted(s, p, name, k, start, i);
    }
  }

  lemma NotInStr(s: string, p: nat, value: string, k: string, start: string, i: nat)
    requires IsName(k) && Plain(value) && MatchAt(s, Show(Str(value)), p)
    requires p <= i < p + |Show(Str(value))|
    requires Boundary(s, p + |Show(Str(value))|)
    ensures !MatchAt(s, Wanted(k, start), i)
  {
    hide Wanted, QuotedAt, Plain;
    StrAt(s, p, value);
    NotInQuoted(s, p, value, k, start, i);
  }

  lemma NotInOther(s: string, p: nat, t: Token, k: string, start: string, i: nat)
    requires Ok(t) && (t.Num? || t.Punct?) && MatchAt(s, Show(t), p) && p <= i < p + |Show(t)|
    ensures !MatchAt(s, Wanted(k, start), i)
  {
    hide Wanted;
    if t.Num? {
      NumAt(s, p, t.n);
    }
    NoQuoteNoName(s, i, k, start);
  }

  /** A name is not found at any position of a piece that is not that name with a colon. */
  lemma NotInPiece(s: string, p: nat, t: Token, k: string, start: string, i: nat)
    requires IsName(k) && Ok(t) && t != Key(k) && MatchAt(s, Show(t), p)
    requires Boundary(s, p + |Show(t)|) && p <= i < p + |Show(t)|
    ensures !MatchAt(s, Wanted(k, start), i)
  {
    hide MatchAt, Wanted, Show, IsName, IsLetter, Plain, Boundary;
    match t
    case Key(name) => NotInKey(s, p, name, k, start, i);
    case Str(value) => NotInStr(s, p, value, k, start, i);
    case Num(_) => NotInOther(s, p, t, k, start, i);
    case Punct(_) => NotInOther(s, p, t, k, start, i);
  }

  /** Every piece starts with a quote, a digit or a delimiter. */
  lemma PieceStart(s: string, p: nat, t: Token)
    requires Ok(t) && MatchAt(s, Show(t), p)
    ensures Boundary(s, p) && p < |s|
  {
    var w := Show(t);
    assert s[p..p + |w|][0] == s[p];
    if t.Num? {
      assert IsDigit(w[0]);
    }
  }

  lemma BoundaryHere(s: string, p: nat, ts: seq<Token>)
    requires Here(s, p, ts) && AllOk(ts) && Boundary(s, p + Len(ts))
    ensures Boundary(s, p)
  {
    if ts != [] {
      hide Boundary, Ok;
      Peel(s, p, ts);
      PieceStart(s, p, ts[0]);
    }
  }

  /** No match of key at the positions from p up to q. */
  predicate Free(s: string, key: string, p: nat, q: nat) {
    forall i :: p <= i < q ==> !MatchAt(s, key, i)
  }

  lemma FreePiece(s: string, p: nat, t: Token, k: string, start: string)
    requires IsName(k) && Ok(t) && t != Key(k) && MatchAt(s, Show(t), p) && Boundary(s, p + |Show(t)|)
    ensures Free(s, Wanted(k, start), p, p + |Show(t)|)
  {
    hide MatchAt, Show, Wanted, IsName, Ok, Boundary;
    forall i | p <= i < p + |Show(t)|
      ensures !MatchAt(s, Wanted(k, start), i)
    {
      NotInPiece(s, p, t, k, start, i);
    }
  }

  lemma FreeJoin(s: string, key: string, p: nat, q: nat, r: nat)
    requires Free(s, key, p, q) && Free(s, key, q, r)
    ensures Free(s, key, p, r)
  {
    hide MatchAt;
  }

  /** A name that no piece of ts is matches nowhere in them. */
  lemma {:induction false} NotIn(s: string, p: nat, ts: seq<Token>, k: string, start: string)
    requires Here(s, p, ts) && AllOk(ts) && Boundary(s, p + Len(ts)) && IsName(k) && Key(k) !in ts
    ensures Free(s, Wanted(k, start), p, p + Len(ts))
    decreases |ts|
  {
    hide MatchAt, Show, Wanted, IsName, Ok, Here, Boundary, Render, Len;
    if ts == [] {
      LenEmpty();
    } else {
      hide Free;
      Peel(s, p, ts);
      var q := p + |Show(ts[0])|;
      BoundaryHere(s, q, ts[1..]);
      NotIn(s, q, ts[1..], k, start);
      FreePiece(s, p, ts[0], k, start);
      FreeJoin(s, Wanted(k, start), p, q, p + Len(ts));
    }
  }

  /** find goes past pieces that are not the name. */
  lemma FindMatch(s: string, p: nat, a: seq<Token>, k: string, start: string)
    requires Here(s, p, a) && AllOk(a) && IsName(k) && Key(k) !in a
    requires MatchAt(s, Wanted(k, start), p + Len(a))
    ensures Find(s, Wanted(k, start), p) == p + Len(a)
  {
    hide *;
    WantedIsBoundary(s, p + Len(a), k, start);
    NotIn(s, p, a, k, start);
    FindHere(s, Wanted(k, start), p + Len(a));
    SkipPositions(s, Wanted(k, start), p, p + Len(a));
  }

  lemma WantedIsBoundary(s: string, p: nat, k: string, start: string)
    requires MatchAt(s, Wanted(k, start), p)
    ensures Boundary(s, p)
  {
    WantedAt(s, p, k, start);
  }

  /** find goes to the next piece that is the name, if its value starts as wanted. */
  lemma FindKey(s: string, p: nat, a: seq<Token>, k: string, start: string)
    requires Here(s, p, a + [Key(k)]) && AllOk(a) && IsName(k) && Key(k) !in a
    requires MatchAt(s, start, p + Len(a) + |k| + 3)
    ensures Find(s, Wanted(k, start), p) == p + Len(a)
    ensures Here(s, p + Len(a), [Key(k)]) && Len(a + [Key(k)]) == Len(a) + |k| + 3
  {
    hide *;
    var q := p + Len(a);
    Move(s, p, a, [Key(k)]);
    One(s, q, Key(k));
    WantedHere(s, q, k, start);
    FindMatch(s, p, a, k, start);
  }

  lemma FindHere(s: string, key: string, p: nat)
    requires MatchAt(s, key, p)
    ensures Find(s, key, p) == p && p <= |s|
  {
  }

  lemma WantedHere(s: string, p: nat, k: string, start: string)
    requires MatchAt(s, Show(Key(k)), p) && MatchAt(s, start, p + |k| + 3)
    ensures MatchAt(s, Wanted(k, start), p) && |Show(Key(k))| == |k| + 3
  {
    assert s[p..p + |Wanted(k, start)|] == s[p..p + |k| + 3] + s[p + |k| + 3..p + |Wanted(k, start)|];
  }

  /** find fails when no piece up to the end is the name. */
  lemma FindNothing(s: string, p: nat, ts: seq<Token>, k: string, start: string)
    requires Here(s, p, ts) && p + Len(ts) == |s| && AllOk(ts) && IsName(k) && Key(k) !in ts
    ensures Find(s, Wanted(k, start), p) == Npos(s)
  {
    hide *;
    EndIsBoundary(s);
    NotIn(s, p, ts, k, start);
    SkipPositions(s, Wanted(k, start), p, |s|);
    NothingAtEnd(s, k, start);
  }

  lemma NothingAtEnd(s: string, k: string, start: string)
    ensures Find(s, Wanted(k, start), |s|) == Npos(s)
  {
  }

  lemma EndIsBoundary(s: string)
    ensures Boundary(s, |s|)
  {
  }

  // ---------------------------------------------------------------- strings and numbers

  predicate NoEscape(s: string, i: nat, e: nat)
    requires e <= |s|
  {
    forall q :: i <= q < e ==> s[q] != '"' && s[q] != '\\'
  }

  lemma {:induction false} ReadPlain(s: string, i: nat, e: nat, raw: string)
    requires i <= e < |s| && s[e] == '"' && NoEscape(s, i, e)
    ensures ReadString(s, i, raw) == Text(e + 1, raw + s[i..e])
    decreases e - i
  {
    if i < e {
      ReadPlain(s, i + 1, e, raw + [s[i]]);
      assert s[i..e] == [s[i]] + s[i + 1..e];
    }
  }

  lemma QuotedIsPlain(s: string, p: nat, v: string)
    requires QuotedAt(s, p, v) && Plain(v)
    ensures NoEscape(s, p + 1, p + 1 + |v|) && s[p + 1..p + 1 + |v|] == v
  {
    assert forall q :: p + 1 <= q < p + 1 + |v| ==> s[q] == v[q - p - 1];
  }

  /** parse_string inverts the printing of a string. */
  lemma ParseStr(s: string, p: nat, v: string)
    requires Here(s, p, [Str(v)]) && Plain(v)
    ensures ParseString(s, p) == Text(p + |v| + 2, v) && Len([Str(v)]) == |v| + 2
  {
    hide Here, Len, Show;
    One(s, p, Str(v));
    StrAt(s, p, v);
    QuotedIsPlain(s, p, v);
    ReadPlain(s, p + 1, p + 1 + |v|, "");
    ShowLength(v);
  }

  lemma ShowLength(v: string)
    ensures |Show(Str(v))| == |v| + 2
  {
  }

  lemma {:induction false} DigitsAppend(s: string, i: nat, n: nat, v: nat, w: nat)
    requires MatchAt(s, Decimal(n), i) && w == i + |Decimal(n)|
    ensures v == 0 ==> Digits(s, i, v) == Digits(s, w, n)
    decreases n
  {
    if n >= 10 {
      var d := Decimal(n);
      assert s[i..w - 1] == s[i..w][..|d| - 1] == Decimal(n / 10);
      assert s[w - 1] == s[i..w][|d| - 1] == (n % 10 + '0' as int) as char;
      DigitsAppend(s, i, n / 10, v, w - 1);
    } else {
      assert s[i] == s[i..w][0];
    }
  }

  /** parse_uint inverts the printing of a number, as far as 64 and then 32 bits can hold it. */
  lemma ParseNum(s: string, p: nat, n: nat)
    requires Here(s, p, [Num(n)]) && (p + Len([Num(n)]) < |s| ==> !IsDigit(s[p + Len([Num(n)])]))
    ensures ParseUint(s, p) == Number((if n > ULONG_MAX then ULONG_MAX else n) % 0x1_0000_0000)
  {
    hide Here, Len;
    One(s, p, Num(n));
    NumAt(s, p, n);
    assert IsDigit(s[p]);
    DigitsAppend(s, p, n, 0, p + |Decimal(n)|);
  }

  // ---------------------------------------------------------------- skip_object

  lemma {:induction false} ScanString(s: string, i: nat, e: nat, depth: int)
    requires i <= e < |s| && s[e] == '"' && NoEscape(s, i, e)
    ensures Scan(s, i, depth, true, false) == Scan(s, e + 1, depth, false, false)
    decreases e - i
  {
    if i < e {
      ScanString(s, i + 1, e, depth);
    }
  }

  lemma {:induction false} ScanDigits(s: string, i: nat, e: nat, depth: int)
    requires i <= e <= |s| && forall q :: i <= q < e ==> IsDigit(s[q])
    ensures Scan(s, i, depth, false, false) == Scan(s, e, depth, false, false)
    decreases e - i
  {
    if i < e {
      ScanDigits(s, i + 1, e, depth);
    }
  }

  function Depth(t: Token): int {
    if t == Punct('{') || t == Punct('[') then 1 else if t == Punct('}') || t == Punct(']') then -1 else 0
  }

  lemma ScanKey(s: string, p: nat, name: string, depth: int)
    requires Plain(name) && MatchAt(s, Show(Key(name)), p)
    ensures Scan(s, p, depth, false, false) == Scan(s, p + |Show(Key(name))|, depth, false, false)
  {
    hide Plain, NoEscape, Quoted;
    KeyAt(s, p, name);
    QuotedIsPlain(s, p, name);
    ScanString(s, p + 1, p + 1 + |name|, depth);
    WantedLength(name);
  }

  lemma ScanStr(s: string, p: nat, value: string, depth: int)
    requires Plain(value) && MatchAt(s, Show(Str(value)), p)
    ensures Scan(s, p, depth, false, false) == Scan(s, p + |Show(Str(value))|, depth, false, false)
  {
    hide Plain, NoEscape, Quoted;
    StrAt(s, p, value);
    QuotedIsPlain(s, p, value);
    ScanString(s, p + 1, p + 1 + |value|, depth);
    ShowLength(value);
  }

  lemma ScanNum(s: string, p: nat, n: nat, depth: int)
    requires MatchAt(s, Show(Num(n)), p)
    ensures Scan(s, p, depth, false, false) == Scan(s, p + |Show(Num(n))|, depth, false, false)
  {
    NumAt(s, p, n);
    ScanDigits(s, p, p + |Decimal(n)|, depth);
  }

  lemma ScanPunct(s: string, p: nat, t: Token, depth: int)
    requires Ok(t) && t.Punct? && MatchAt(s, Show(t), p) && (Depth(t) == -1 ==> depth != 1)
    ensures Scan(s, p, depth, false, false) == Scan(s, p + |Show(t)|, depth + Depth(t), false, false)
  {
    assert s[p] == s[p..p + 1][0] == t.c;
  }

  /** A piece moves skip_object past itself and changes only its depth. */
  lemma ScanPiece(s: string, p: nat, t: Token, depth: int)
    requires Ok(t) && MatchAt(s, Show(t), p) && (Depth(t) == -1 ==> depth != 1)
    ensures Scan(s, p, depth, false, false) == Scan(s, p + |Show(t)|, depth + Depth(t), false, false)
  {
    hide Scan, MatchAt, Show, Plain;
    match t
    case Key(name) => ScanKey(s, p, name, depth);
    case Str(value) => ScanStr(s, p, value, depth);
    case Num(n) => ScanNum(s, p, n, depth);
    case Punct(_) => ScanPunct(s, p, t, depth);
  }

  lemma WantedLength(name: string)
    ensures |Show(Key(name))| == |name| + 3
  {
  }

  /** Brackets open and close in ts so that the depth starts and ends d above the base, never
      below it. */
  predicate Balanced(ts: seq<Token>, d: nat) {
    if ts == [] then d == 0 else d + Depth(ts[0]) >= 0 && Balanced(ts[1..], d + Depth(ts[0]))
  }

  lemma {:induction false} BalancedConcat(a: seq<Token>, b: seq<Token>, d: nat)
    requires Balanced(a, d) && Balanced(b, 0)
    ensures Balanced(a + b, d)
  {
    if a == [] {
      assert a + b == b;
    } else {
      assert (a + b)[1..] == a[1..] + b;
      BalancedConcat(a[1..], b, d + Depth(a[0]));
    }
  }

  lemma {:induction false} BalancedClose(a: seq<Token>, close: Token, d: nat)
    requires Balanced(a, d) && Depth(close) == -1
    ensures Balanced(a + [close], d + 1)
  {
    if a == [] {
      assert a + [close] == [close];
    } else {
      assert (a + [close])[1..] == a[1..] + [close];
      BalancedClose(a[1..], close, d + Depth(a[0]));
    }
  }

  lemma {:induction false} ScanBalanced(s: string, p: nat, ts: seq<Token>, d: nat, base: nat)
    requires Here(s, p, ts) && AllOk(ts) && Balanced(ts, d) && base > 0
    ensures Scan(s, p, base + d, false, false) == Scan(s, p + Len(ts), base, false, false)
    decreases |ts|
  {
    hide Here, Len, Render, Scan, Show, MatchAt, Ok, Depth;
    if ts == [] {
      LenEmpty();
    } else {
      Peel(s, p, ts);
      ScanPiece(s, p, ts[0], base + d);
      ScanBalanced(s, p + |Show(ts[0])|, ts[1..], d + Depth(ts[0]), base);
    }
  }

  lemma LenEmpty()
    ensures Len([]) == 0
  {
  }

  /** skip_object goes just past the bracket that closes the one at p, whatever is in between. */
  lemma SkipBalanced(s: string, p: nat, open: Token, ts: seq<Token>, close: Token)
    requires Here(s, p, [open] + ts + [close]) && AllOk([open] + ts + [close])
    requires Balanced(ts, 0) && Depth(open) == 1 && Depth(close) == -1
    ensures SkipObject(s, p) == p + Len([open] + ts + [close])
  {
    hide Here, Len, Scan, Balanced, Show;
    assert [open] + ts + [close] == [open] + (ts + [close]);
    Move(s, p, [open], ts + [close]);
    One(s, p, open);
    var q := p + |Show(open)|;
    Move(s, q, ts, [close]);
    var r := q + Len(ts);
    One(s, r, close);
    ScanPiece(s, p, open, 0);
    assert AllOk(ts) by {
      assert forall i :: 0 <= i < |ts| ==> ts[i] == ([open] + ts + [close])[i + 1];
    }
    ScanBalanced(s, q, ts, 0, 1);
    ScanClose(s, r, close);
  }

  lemma ScanClose(s: string, p: nat, close: Token)
    requires MatchAt(s, Show(close), p) && Depth(close) == -1
    ensures Scan(s, p, 1, false, false) == p + |Show(close)|
  {
    assert s[p] == s[p..p + 1][0] == close.c;
  }

  // ---------------------------------------------------------------- escapes and signs

  /** A string with a backslash before every quote and backslash. */
  function Escaped(v: string): string {
    if v == "" then ""
    else (if v[0] == '"' || v[0] == '\\' then ['\\', v[0]] else [v[0]]) + Escaped(v[1..])
  }

  /** The text x is at position i, and a quote behind it. */
  predicate QuotedEnd(s: string, i: nat, x: string) {
    i + |x| < |s| && s[i..i + |x|] == x && s[i + |x|] == '"'
  }

  lemma QuotedNext(s: string, i: nat, a: string, x: string)
    requires QuotedEnd(s, i, a + x) && a != ""
    ensures i + |a| < |s| && s[i] == a[0] && (|a| > 1 ==> s[i + 1] == a[1]) && QuotedEnd(s, i + |a|, x)
  {
    var y := a + x;
    assert s[i..i + |y|][..|a|] == a && s[i..i + |y|][|a|..] == x;
    assert s[i + |a|..i + |y|] == x;
    assert s[i] == s[i..i + |y|][0] && (|a| > 1 ==> s[i + 1] == s[i..i + |y|][1]);
  }

  /** parse_string reads an escaped string back, whatever it holds. */
  lemma {:induction false} ReadEscaped(s: string, i: nat, v: string, raw: string)
    requires QuotedEnd(s, i, Escaped(v))
    ensures ReadString(s, i, raw) == Text(i + |Escaped(v)| + 1, raw + v)
    decreases |v|
  {
    hide ReadString, Scan;
    if v == "" {
      assert raw + v == raw;
      QuoteEnds(s, i, raw, 0);
    } else {
      var c, others := v[0], Escaped(v[1..]);
      var a := if c == '"' || c == '\\' then ['\\', c] else [c];
      assert Escaped(v) == a + others;
      hide Escaped, QuotedEnd;
      QuotedNext(s, i, a, others);
      OneCharacter(s, i, c, raw, 0);
      ReadEscaped(s, i + |a|, v[1..], raw + [c]);
      assert raw + [c] + v[1..] == raw + v;
    }
  }

  lemma QuoteEnds(s: string, i: nat, raw: string, depth: int)
    requires i < |s| && s[i] == '"'
    ensures ReadString(s, i, raw) == Text(i + 1, raw)
    ensures Scan(s, i, depth, true, false) == Scan(s, i + 1, depth, false, false)
  {
  }

  /** One character inside a string, as it is or behind a backslash. */
  lemma OneCharacter(s: string, i: nat, c: char, raw: string, depth: int)
    requires i < |s|
    requires if c == '"' || c == '\\' then s[i] == '\\' && i + 1 < |s| && s[i + 1] == c else s[i] == c
    ensures var n := if c == '"' || c == '\\' then 2 else 1;
            && ReadString(s, i, raw) == ReadString(s, i + n, raw + [c])
            && Scan(s, i, depth, true, false) == Scan(s, i + n, depth, true, false)
  {
  }

  /** skip_object goes past an escaped string, whatever it holds. */
  lemma {:induction false} ScanEscaped(s: string, i: nat, v: string, depth: int)
    requires QuotedEnd(s, i, Escaped(v))
    ensures Scan(s, i, depth, true, false) == Scan(s, i + |Escaped(v)| + 1, depth, false, false)
    decreases |v|
  {
    hide Scan, ReadString;
    if v == "" {
      QuoteEnds(s, i, "", depth);
    } else {
      var c, others := v[0], Escaped(v[1..]);
      var a := if c == '"' || c == '\\' then ['\\', c] else [c];
      assert Escaped(v) == a + others;
      hide Escaped, QuotedEnd;
      QuotedNext(s, i, a, others);
      OneCharacter(s, i, c, "", depth);
      ScanEscaped(s, i + |a|, v[1..], depth);
    }
  }

  /** What parse_uint makes of a number with spaces and a sign before it. */
  lemma ParseSigned(s: string, p: nat, q: nat, n: nat)
    requires p <= q < |s| && (forall k :: p <= k < q ==> s[k] == ' ') && (s[q] == '-' || s[q] == '+')
    requires MatchAt(s, Decimal(n), q + 1)
    requires q + 1 + |Decimal(n)| < |s| ==> !IsDigit(s[q + 1 + |Decimal(n)|])
    ensures ParseUint(s, p) ==
            Number((if n > ULONG_MAX then ULONG_MAX else if s[q] == '-' then 0x1_0000_0000_0000_0000 - n else n)
                   % 0x1_0000_0000)
  {
    SkipSpaces(s, p, q);
    FirstDigit(s, q + 1, n);
    DigitsAppend(s, q + 1, n, 0, q + 1 + |Decimal(n)|);
    NoMoreDigits(s, q + 1 + |Decimal(n)|, n);
    hide Decimal, Digits, SkipSpace, MatchAt;
  }

  lemma FirstDigit(s: string, i: nat, n: nat)
    requires MatchAt(s, Decimal(n), i)
    ensures i < |s| && IsDigit(s[i])
  {
    var d := Decimal(n);
    hide Decimal;
    assert s[i..i + |d|][0] == s[i];
  }

  lemma NoMoreDigits(s: string, i: nat, v: nat)
    requires i < |s| ==> !IsDigit(s[i])
    ensures Digits(s, i, v) == v
  {
  }

  lemma {:induction false} SkipSpaces(s: string, p: nat, q: nat)
    requires p <= q < |s| && (forall k :: p <= k < q ==> s[k] == ' ') && (s[q] == '-' || s[q] == '+')
    ensures SkipSpace(s, p) == q
    decreases q - p
  {
    if p < q {
      SkipSpaces(s, p + 1, q);
    }
  }
}
