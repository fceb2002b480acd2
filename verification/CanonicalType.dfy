/** server/client/koheron-client.hpp: canonical_type and the string helpers under it. */
module CanonicalType {
  import opened JsonText

  // ---------------------------------------------------------------- replace_all

  const CXX11 := "std::__cxx11::"
  const STD := "std::"

  /** Every occurrence of "std::__cxx11::" replaced by "std::", from left to right. */
  function Replaced(s: string): (r: string)
    ensures |r| <= |s|
  {
    if s == "" then ""
    else if CXX11 <= s then STD + Replaced(s[|CXX11|..])
    else [s[0]] + Replaced(s[1..])
  }

  // ---------------------------------------------------------------- trimming

  function TrimFront(s: string): (r: string)
    ensures |r| <= |s| && (r != "" ==> !IsWs(r[0]))
  {
    if s != "" && IsWs(s[0]) then TrimFront(s[1..]) else s
  }

  function TrimBack(s: string): (r: string)
    ensures |r| <= |s|
  {
    if s != "" && IsWs(s[|s| - 1]) then TrimBack(s[..|s| - 1]) else s
  }

  /** trim_str */
  function Trim(s: string): (r: string)
    ensures |r| <= |s|
  {
    TrimBack(TrimFront(s))
  }

  predicate IsRefOrWs(c: char) {
    c == '&' || IsWs(c)
  }

  /** Without the references and spaces at the end. */
  function StripRef(s: string): (r: string)
    ensures |r| <= |s|
  {
    if s != "" && IsRefOrWs(s[|s| - 1]) then StripRef(s[..|s| - 1]) else s
  }

  function Normalize(s: string): (r: string)
    ensures |r| <= |s|
  {
    Trim(StripRef(Replaced(Trim(s))))
  }

  // ---------------------------------------------------------------- split_top

  /** The loop of split_top on what is left of the string. */
  function Split(s: string, cur: string, depth: int, inString: bool): (r: seq<string>)
    ensures r != [] && |r[0]| <= |cur| + |s|
  {
    if s == "" then [cur]
    else
      var c := s[0];
      if inString then Split(s[1..], cur + [c], depth, c != '"')
      else if c == '"' then Split(s[1..], cur + [c], depth, true)
      else
        var d := if c == '<' || c == '(' then depth + 1 else if c == '>' || c == ')' then depth - 1 else depth;
        if c == ',' && d == 0 then [cur] + Split(s[1..], "", d, false)
        else Split(s[1..], cur + [c], d, false)
  }

  function SplitTop(s: string): (r: seq<string>)
    ensures r != [] && |r[0]| <= |s|
  {
    Split(s, "", 0, false)
  }

  // ---------------------------------------------------------------- canonical_type

  /** The rows of the table for names of one byte and of floating-point types. */
  function ByteName(s: string): string {
    if s == "bool" || s == "char" || s == "float" || s == "double" then s
    else if s == "signed char" || s == "signed int" || s == "signed" then "int8_t"
    else ""
  }

  /** The rows for longer signed integers. */
  function SignedName(s: string): string {
    if s == "short" || s == "short int" then "int16_t"
    else if s == "int" then "int32_t"
    else if s == "long" || s == "long int" || s == "long long" || s == "long long int" then "int64_t"
    else ""
  }

  function UnsignedName(s: string): string {
    if s == "unsigned char" then "uint8_t"
    else if s == "unsigned short" || s == "unsigned short int" then "uint16_t"
    else if s == "unsigned int" || s == "unsigned" then "uint32_t"
    else ""
  }

  function UnsignedLongName(s: string): string {
    if s == "unsigned long" || s == "unsigned long int"
       || s == "unsigned long long" || s == "unsigned long long int" then "uint64_t"
    else ""
  }

  /** The instrument's spelling of a fixed name, empty for other names. */
  function FixedName(s: string): string {
    if ByteName(s) != "" then ByteName(s)
    else if SignedName(s) != "" then SignedName(s)
    else if UnsignedName(s) != "" then UnsignedName(s)
    else if UnsignedLongName(s) != "" then UnsignedLongName(s)
    else if "std::basic_string<" <= s then "std::string"
    else ""
  }

  /** An array size without its suffix. */
  function DropSuffix(n: string): string {
    if n != "" && (n[|n| - 1] == 'u' || n[|n| - 1] == 'l') then DropSuffix(n[..|n| - 1]) else n
  }

  const VECTOR := "std::vector<"
  const ARRAY := "std::array<"

  function Canonical(s: string): string
    decreases |s|, 1
  {
    Parsed(Normalize(s))
  }

  /** canonical_type behind the trimming. */
  function Parsed(s: string): string
    decreases |s|, 0
  {
    if FixedName(s) != "" then FixedName(s)
    else if VECTOR <= s && s[|s| - 1] == '>' then
      VECTOR + Canonical(SplitTop(s[12..|s| - 1])[0]) + ">"
    else if ARRAY <= s && s[|s| - 1] == '>' && |SplitTop(s[11..|s| - 1])| == 2 then
      var parts := SplitTop(s[11..|s| - 1]);
      ARRAY + Canonical(parts[0]) + ", " + DropSuffix(Trim(parts[1])) + ">"
    else s
  }

  // ---------------------------------------------------------------- the loops

  lemma ReplacedEmpty()
    ensures Replaced("") == ""
  {
  }

  lemma ReplacedStep(s: string)
    requires s != ""
    ensures Replaced(s) == if CXX11 <= s then STD + Replaced(s[|CXX11|..]) else [s[0]] + Replaced(s[1..])
    ensures |CXX11| > 0
  {
  }

  lemma CanonicalUnfold(s: string)
    ensures Canonical(s) == Parsed(Normalize(s))
  {
  }

  lemma {:induction false} ReplacedPast(s: string, p: nat, q: nat)
    requires p <= q <= |s| && Free(s, CXX11, p, q)
    ensures Replaced(s[p..]) == s[p..q] + Replaced(s[q..])
    decreases q - p
  {
    hide Replaced;
    if p == q {
      assert s[p..q] == "";
    } else {
      assert !MatchAt(s, CXX11, p);
      ReplacedStep(s[p..]);
      PrefixIsMatch(s, p);
      ReplacedPast(s, p + 1, q);
      FirstApart(s, p, q, Replaced(s[q..]));
    }
  }

  lemma FirstApart(s: string, p: nat, q: nat, more: string)
    requires p < q <= |s|
    ensures s[p..][0] == s[p] && s[p..][1..] == s[p + 1..]
    ensures [s[p]] + (s[p + 1..q] + more) == s[p..q] + more
  {
  }

  lemma PrefixIsMatch(s: string, p: nat)
    requires p <= |s|
    ensures CXX11 <= s[p..] <==> MatchAt(s, CXX11, p)
  {
    var n := |CXX11|;
    if n <= |s[p..]| {
      assert s[p..][..n] == s[p..p + n];
    }
  }

  lemma NothingLeft(s: string, p: nat)
    requires p <= |s| && Find(s, CXX11, p) == Npos(s)
    ensures Replaced(s[p..]) == s[p..]
  {
    hide Replaced;
    FindIsLeast(s, CXX11, p);
    ReplacedPast(s, p, |s|);
    ReplacedEmpty();
  }

  lemma ReplacedMatch(s: string, p: nat, q: nat)
    requires p <= |s| && Find(s, CXX11, p) == q != Npos(s)
    ensures p <= q && q + |CXX11| <= |s|
    ensures Replaced(s[p..]) == s[p..q] + STD + Replaced(s[q + |CXX11|..])
  {
    hide Replaced;
    ReplacedPast(s, p, q);
    PrefixIsMatch(s, q);
    ReplacedStep(s[q..]);
    assert s[q..][|CXX11|..] == s[q + |CXX11|..];
  }

  /** replace_all, as canonical_type calls it. */
  method ReplaceAll(text: string) returns (s: string)
    ensures s == Replaced(text)
  {
    hide *;
    s := text;
    var p := 0;
    assert s[..0] == "" && s[0..] == s;
    while true
      invariant p <= |s| && s[..p] + Replaced(s[p..]) == Replaced(text)
      decreases |s| - p
    {
      var q := Find(s, CXX11, p);
      if q == Npos(s) {
        NothingLeft(s, p);
        assert s[..p] + s[p..] == s;
        return;
      }
      ReplacedMatch(s, p, q);
      var before, after := s[..q], s[q + |CXX11|..];
      ghost var was := s;
      s := before + STD + after;
      Lengths();
      assert was[..p] + was[p..q] == before;
      assert was[..p] + (was[p..q] + STD + Replaced(after)) == before + STD + Replaced(after);
      p := q + |STD|;
      assert s[..p] == before + STD && s[p..] == after;
    }
  }

  lemma Lengths()
    ensures 0 < |STD| < |CXX11|
  {
  }

  /** trim_str */
  method TrimStr(text: string) returns (s: string)
    ensures s == Trim(text)
  {
    s := text;
    while s != "" && IsWs(s[0])
      invariant TrimFront(s) == TrimFront(text)
      decreases |s|
    {
      s := s[1..];
    }
    while s != "" && IsWs(s[|s| - 1])
      invariant TrimBack(s) == Trim(text)
      decreases |s|
    {
      s := s[..|s| - 1];
    }
  }

  /** split_top */
  method SplitAtCommas(s: string) returns (out: seq<string>)
    ensures out == SplitTop(s)
  {
    out := [];
    var cur, depth, inString := "", 0, false;
    for i := 0 to |s|
      invariant out + Split(s[i..], cur, depth, inString) == SplitTop(s)
    {
      var c := s[i];
      assert s[i..][1..] == s[i + 1..];
      if inString {
        cur := cur + [c];
        if c == '"' {
          inString := false;
        }
        continue;
      }
      if c == '"' {
        inString := true;
        cur := cur + [c];
        continue;
      }
      if c == '<' || c == '(' {
        depth := depth + 1;
      } else if c == '>' || c == ')' {
        depth := depth - 1;
      }
      if c == ',' && depth == 0 {
        out := out + [cur];
        cur := "";
        continue;
      }
      cur := cur + [c];
    }
    out := out + [cur];
  }

  lemma ParsedUnfold(s: string)
    ensures VECTOR <= s && s[|s| - 1] == '>' ==> 12 <= |s| - 1
    ensures ARRAY <= s && s[|s| - 1] == '>' ==> 11 <= |s| - 1
    ensures Parsed(s) ==
      if FixedName(s) != "" then FixedName(s)
      else if VECTOR <= s && s[|s| - 1] == '>' then
        VECTOR + Canonical(SplitTop(s[12..|s| - 1])[0]) + ">"
      else if ARRAY <= s && s[|s| - 1] == '>' && |SplitTop(s[11..|s| - 1])| == 2 then
        ARRAY + Canonical(SplitTop(s[11..|s| - 1])[0]) + ", " + DropSuffix(Trim(SplitTop(s[11..|s| - 1])[1])) + ">"
      else s
  {
    hide FixedName, SplitTop, DropSuffix, Trim;
    assert VECTOR[11] == '<' && ARRAY[10] == '<';
  }

  /** canonical_type */
  method CanonicalName(name: string) returns (r: string)
    ensures r == Canonical(name)
    decreases |name|
  {
    hide Replaced, Parsed, FixedName, SplitTop, DropSuffix;
    CanonicalUnfold(name);
    var s := TrimStr(name);
    s := ReplaceAll(s);
    while s != "" && IsRefOrWs(s[|s| - 1])
      invariant Trim(StripRef(s)) == Normalize(name) && |s| <= |name|
      decreases |s|
    {
      s := s[..|s| - 1];
    }
    s := TrimStr(s);
    hide *;
    ParsedUnfold(s);
    if FixedName(s) != "" {
      return FixedName(s);
    }
    if VECTOR <= s && s[|s| - 1] == '>' {
      var parts := SplitAtCommas(s[12..|s| - 1]);
      var elem := CanonicalName(parts[0]);
      return VECTOR + elem + ">";
    }
    if ARRAY <= s && s[|s| - 1] == '>' {
      var parts := SplitAtCommas(s[11..|s| - 1]);
      if |parts| == 2 {
        var n := TrimStr(parts[1]);
        ghost var size := n;
        while n != "" && (n[|n| - 1] == 'u' || n[|n| - 1] == 'l')
          invariant DropSuffix(n) == DropSuffix(size)
          decreases |n|
        {
          DropSuffixUnfold(n);
          n := n[..|n| - 1];
        }
        DropSuffixUnfold(n);
        var elem := CanonicalName(parts[0]);
        return ARRAY + elem + ", " + n + ">";
      }
    }
    return s;
  }

  lemma DropSuffixUnfold(n: string)
    ensures DropSuffix(n) ==
      if n != "" && (n[|n| - 1] == 'u' || n[|n| - 1] == 'l') then DropSuffix(n[..|n| - 1]) else n
  {
  }
}
