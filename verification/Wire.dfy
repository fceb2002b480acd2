/** The binary format of commands and replies: the values, their encodings, and what a reader
    makes of a byte stream.

    Scalars travel in network byte order; arrays, vectors and strings as the memory image of
    their elements, vectors and strings behind a 32-bit byte count. */
module Wire {
  import opened Arithmetic
  import opened Bytes

  // ---------------------------------------------------------------- scalars

  datatype ScalarType = TUint(w: nat) | TInt(w: nat) | TFloat(w: nat) | TBool
  {
    ghost predicate Valid() {
      TBool? || w == 1 || w == 2 || w == 4 || w == 8
    }

    /** size_of<T> */
    function Size(): nat {
      if TBool? then 1 else w
    }
  }

  /** Floating-point values are their bit patterns. */
  datatype Scalar = VUint(w: nat, n: nat) | VInt(w: nat, i: int) | VFloat(w: nat, pattern: nat) | VBool(b: bool)
  {
    function Type(): ScalarType {
      match this
      case VUint(w, _) => TUint(w)
      case VInt(w, _) => TInt(w)
      case VFloat(w, _) => TFloat(w)
      case VBool(_) => TBool
    }

    ghost predicate Valid() {
      && Type().Valid()
      && match this
         case VUint(w, n) => n < Pow256(w)
         case VInt(w, i) => 0 <= Pow256(w) + 2 * i < 2 * Pow256(w)
         case VFloat(w, pattern) => pattern < Pow256(w)
         case VBool(_) => true
    }

    /** The unsigned integer that append<T> writes: signed values are reinterpreted. */
    function Bits(): nat {
      match this
      case VUint(_, n) => n
      case VInt(w, i) => i % Pow256(w)
      case VFloat(_, pattern) => pattern
      case VBool(b) => if b then 1 else 0
    }
  }

  /** append<uint8_t>, append<uint16_t>, append<uint32_t> and append<uint64_t> */
  function Append(v: nat, w: nat): (r: seq<uint8>) {
    if w == 1 then [v % 0x100]
    else if w == 2 then [v / 0x100 % 0x100, v % 0x100]
    else if w == 4 then [v / 0x100_0000 % 0x100, v / 0x1_0000 % 0x100, v / 0x100 % 0x100, v % 0x100]
    else if w == 8 then Append(v / 0x1_0000_0000, 4) + Append(v % 0x1_0000_0000, 4)
    else []
  }

  /** extract<uint8_t>, extract<uint16_t>, extract<uint32_t> and extract<uint64_t> */
  function Extract(s: seq<uint8>, w: nat): nat
    requires w <= |s|
  {
    if w == 1 then s[0]
    else if w == 2 then s[1] + s[0] * 0x100
    else if w == 4 then s[3] + s[2] * 0x100 + s[1] * 0x1_0000 + s[0] * 0x100_0000
    else if w == 8 then Extract(s[4..], 4) + Extract(s, 4) * 0x1_0000_0000
    else 0
  }

  /** The scalar that extract<T> makes of the bytes. */
  function ExtractScalar(t: ScalarType, s: seq<uint8>): Scalar
    requires t.Size() <= |s|
  {
    match t
    case TUint(w) => VUint(w, Extract(s, w))
    case TInt(w) => VInt(w, var v := Extract(s, w); if 2 * v < Pow256(w) then v else v - Pow256(w))
    case TFloat(w) => VFloat(w, Extract(s, w))
    case TBool => VBool(Extract(s, 1) == 1)
  }

  lemma PowersOf256()
    ensures Pow256(1) == 0x100 && Pow256(2) == 0x1_0000 && Pow256(4) == 0x1_0000_0000
    ensures Pow256(8) == 0x1_0000_0000_0000_0000
  {
    assert Pow256(3) == 0x100_0000;
    assert Pow256(4) == 0x1_0000_0000;
    assert Pow256(5) == 0x100_0000_0000;
    assert Pow256(6) == 0x1_0000_0000_0000;
    assert Pow256(7) == 0x100_0000_0000_0000;
  }

  lemma SumOfBytes(v: nat)
    requires v < 0x1_0000_0000
    ensures v == v % 0x100 + (v / 0x100 % 0x100) * 0x100 + (v / 0x1_0000 % 0x100) * 0x1_0000
                 + (v / 0x100_0000 % 0x100) * 0x100_0000
  {
    DivideByBytes(v);
    var a, b, c := v / 0x100, v / 0x1_0000, v / 0x100_0000;
    assert v == 0x100 * a + v % 0x100;
    assert a == 0x100 * b + a % 0x100;
    assert b == 0x100 * c + b % 0x100;
    assert c < 0x100;
  }

  lemma DivideByBytes(v: nat)
    ensures v / 0x100 / 0x100 == v / 0x1_0000
    ensures v / 0x1_0000 / 0x100 == v / 0x100_0000
    ensures v / 0x100_0000 / 0x100 == v / 0x1_0000_0000
  {
  }

  lemma ExtractAppend4(v: nat, rest: seq<uint8>)
    requires v < 0x1_0000_0000
    ensures |Append(v, 4)| == 4 && Extract(Append(v, 4) + rest, 4) == v
  {
    SumOfBytes(v);
  }

  lemma ExtractAppend(v: nat, w: nat, rest: seq<uint8>)
    requires (w == 1 || w == 2 || w == 4 || w == 8) && v < Pow256(w)
    ensures |Append(v, w)| == w && Extract(Append(v, w) + rest, w) == v
  {
    PowersOf256();
    hide Pow256;
    if w == 4 {
      ExtractAppend4(v, rest);
    } else if w == 8 {
      var hi, lo := v / 0x1_0000_0000, v % 0x1_0000_0000;
      ExtractAppend4(hi, Append(lo, 4) + rest);
      ExtractAppend4(lo, rest);
      assert Append(v, 8) + rest == Append(hi, 4) + (Append(lo, 4) + rest);
      assert (Append(v, 8) + rest)[4..] == Append(lo, 4) + rest;
    }
  }

  /** The integers are written in network byte order. */
  lemma AppendIsBigEndian(v: nat, w: nat)
    requires w == 1 || w == 2 || w == 4 || w == 8
    ensures Append(v, w) == BigEndian(v, w)
  {
    if w == 1 || w == 2 {
      BigEndian2(v);
    } else if w == 4 {
      BigEndian4(v);
    } else {
      var u := v / 0x1_0000_0000;
      BigEndian4(u);
      BigEndian4(v % 0x1_0000_0000);
      BigEndian4Prefix(v, 4);
      AppendLowBytes(v);
      assert BigEndian(v, 8) == BigEndian(u, 4) + Append(v, 4);
    }
  }

  lemma BigEndian2(v: nat)
    ensures BigEndian(v, 1) == Append(v, 1) && BigEndian(v, 2) == Append(v, 2)
  {
    assert BigEndian(v / 0x100, 1) == BigEndian(v / 0x100 / 0x100, 0) + [v / 0x100 % 0x100];
  }

  lemma AppendBytes(v: nat)
    ensures Append(v, 4) == [v / 0x100_0000 % 0x100, v / 0x1_0000 % 0x100, v / 0x100 % 0x100, v % 0x100]
  {
  }

  lemma AppendLowBytes(v: nat)
    ensures Append(v, 4) == Append(v % 0x1_0000_0000, 4)
  {
    var q, r := v / 0x1_0000_0000, v % 0x1_0000_0000;
    assert v == 0x1_0000_0000 * q + r;
    hide Append;
    DivideMultiple(0x100, 0x100_0000 * q, r);
    DivideMultiple(0x1_0000, 0x1_0000 * q, r);
    DivideMultiple(0x100_0000, 0x100 * q, r);
    RemainderOfMultiple(0x1_0000 * q, r / 0x100);
    RemainderOfMultiple(0x100 * q, r / 0x1_0000);
    RemainderOfMultiple(q, r / 0x100_0000);
    RemainderOfMultiple(0x100_0000 * q, r);
    AppendBytes(v);
    AppendBytes(r);
  }

  lemma BigEndian4Prefix(v: nat, w: nat)
    ensures BigEndian(v, w + 4) == BigEndian(v / 0x1_0000_0000, w) + Append(v, 4)
  {
    DivideByBytes(v);
    var a, b, c, d := v / 0x100, v / 0x1_0000, v / 0x100_0000, v / 0x1_0000_0000;
    assert BigEndian(v, w + 4) == BigEndian(a, w + 3) + [v % 0x100];
    assert BigEndian(a, w + 3) == BigEndian(b, w + 2) + [a % 0x100];
    assert BigEndian(b, w + 2) == BigEndian(c, w + 1) + [b % 0x100];
    assert BigEndian(c, w + 1) == BigEndian(d, w) + [c % 0x100];
  }

  lemma BigEndian4(v: nat)
    ensures BigEndian(v, 4) == Append(v, 4)
  {
    BigEndian4Prefix(v, 0);
  }

  /** reinterpret_cast between the signed and unsigned types of one width. */
  lemma Reinterpret(i: int, p: nat)
    requires 0 <= p + 2 * i < 2 * p
    ensures i % p == if i < 0 then i + p else i
  {
    QuotientIsUnique(p, if i < 0 then -1 else 0, if i < 0 then i + p else i, i);
  }

  /** A scalar read back is the scalar written. */
  lemma ScalarRoundTrip(x: Scalar, rest: seq<uint8>)
    requires x.Valid()
    ensures var t := x.Type();
            && |Append(x.Bits(), t.Size())| == t.Size()
            && ExtractScalar(t, Append(x.Bits(), t.Size()) + rest) == x
  {
    hide Append, Extract, Pow256;
    PowersOf256();
    if x.VInt? {
      Reinterpret(x.i, Pow256(x.w));
    }
    ExtractAppend(x.Bits(), x.Type().Size(), rest);
  }

  // ---------------------------------------------------------------- arguments

  /** Types of driver arguments and return values; size is sizeof the element type. */
  datatype ArgType = ScalarT(t: ScalarType) | ArrayT(size: nat, n: nat) | VectorT(size: nat) | StringT
  {
    ghost predicate Valid() {
      match this
      case ScalarT(t) => t.Valid()
      case ArrayT(size, _) => size > 0
      case VectorT(size) => 0 < size < 0x8000_0000_0000_0000
      case StringT => true
    }
  }

  /** An element of an array or vector is its memory image; a string is its bytes. */
  datatype Arg = ScalarA(x: Scalar) | ArrayA(size: nat, elems: seq<seq<uint8>>)
               | VectorA(size: nat, elems: seq<seq<uint8>>) | StringA(chars: seq<uint8>)
  {
    function Type(): ArgType {
      match this
      case ScalarA(x) => ScalarT(x.Type())
      case ArrayA(size, elems) => ArrayT(size, |elems|)
      case VectorA(size, _) => VectorT(size)
      case StringA(_) => StringT
    }

    ghost predicate Valid() {
      match this
      case ScalarA(x) => x.Valid()
      case ArrayA(size, elems) => size > 0 && forall e :: e in elems ==> |e| == size
      case VectorA(size, elems) => size > 0 && forall e :: e in elems ==> |e| == size
      case StringA(_) => true
    }

    /** The bytes of a container. */
    function Image(): seq<uint8>
      requires !ScalarA?
    {
      if StringA? then chars else Concat(elems)
    }
  }

  function Concat(elems: seq<seq<uint8>>): seq<uint8> {
    if elems == [] then [] else elems[0] + Concat(elems[1..])
  }

  /** The elements that a reader of n elements of the given size sees in memory. */
  function Elements(s: seq<uint8>, size: nat, n: nat): (r: seq<seq<uint8>>)
    requires size * n <= |s|
    ensures |r| == n
  {
    if n == 0 then []
    else
      OneMore(size, n);
      [s[..size]] + Elements(s[size..], size, n - 1)
  }

  lemma {:induction false} ConcatLength(elems: seq<seq<uint8>>, size: nat)
    requires forall e :: e in elems ==> |e| == size
    ensures |Concat(elems)| == size * |elems|
  {
    if elems != [] {
      ConcatLength(elems[1..], size);
      OneMore(size, |elems|);
    }
  }

  lemma {:induction false} ElementsOfConcat(elems: seq<seq<uint8>>, size: nat, rest: seq<uint8>)
    requires forall e :: e in elems ==> |e| == size
    ensures |Concat(elems)| == size * |elems|
    ensures Elements(Concat(elems) + rest, size, |elems|) == elems
  {
    hide *;
    ConcatLength(elems, size);
    if elems == [] {
      NoElements(Concat(elems) + rest, size);
    } else {
      var tail := elems[1..];
      ElementsOfConcat(tail, size, rest);
      ConcatFirst(elems, rest);
      var s := Concat(elems) + rest;
      FirstElement(s, size, |elems|);
      assert s[..size] == elems[0] && s[size..] == Concat(tail) + rest;
      assert elems == [elems[0]] + tail;
    }
  }

  lemma NoElements(s: seq<uint8>, size: nat)
    ensures size * 0 == 0 && Elements(s, size, 0) == []
  {
  }

  lemma ConcatFirst(elems: seq<seq<uint8>>, rest: seq<uint8>)
    requires elems != []
    ensures Concat(elems) + rest == elems[0] + (Concat(elems[1..]) + rest)
  {
  }

  lemma FirstElement(s: seq<uint8>, size: nat, n: nat)
    requires 0 < n && size * n <= |s|
    ensures size + size * (n - 1) == size * n
    ensures Elements(s, size, n) == [s[..size]] + Elements(s[size..], size, n - 1)
  {
    OneMore(size, n);
  }

  /** What the serializer puts on the wire for one argument. */
  function Encode(a: Arg): seq<uint8>
  {
    match a
    case ScalarA(x) => Append(x.Bits(), x.Type().Size())
    case ArrayA(_, _) => a.Image()
    case _ =>
      var n := |a.Image()| % 0x1_0000_0000;   // const uint32_t n_bytes
      Append(n, 4) + a.Image()[..n]
  }

  ghost predicate ValidArgs(args: seq<Arg>) {
    forall a :: a in args ==> a.Valid()
  }

  /** Plain concatenation of the encodings. */
  function EncodeAll(args: seq<Arg>): seq<uint8>
  {
    if args == [] then [] else Encode(args[0]) + EncodeAll(args[1..])
  }

  function Types(args: seq<Arg>): (r: seq<ArgType>)
    ensures |r| == |args|
  {
    if args == [] then [] else [args[0].Type()] + Types(args[1..])
  }

  // ---------------------------------------------------------------- the bytes themselves

  /** The bytes of a scalar: two's complement for signed values, 1 or 0 for truth values. */
  lemma ScalarBytes(x: Scalar)
    requires x.Valid()
    ensures x.VUint? ==> Encode(ScalarA(x)) == BigEndian(x.n, x.w)
    ensures x.VInt? ==> Encode(ScalarA(x)) == BigEndian(if x.i < 0 then x.i + Pow256(x.w) else x.i, x.w)
    ensures x.VFloat? ==> Encode(ScalarA(x)) == BigEndian(x.pattern, x.w)
    ensures x.VBool? ==> Encode(ScalarA(x)) == [if x.b then 1 else 0]
  {
    hide Append, BigEndian, Pow256;
    if x.VInt? {
      Reinterpret(x.i, Pow256(x.w));
    }
    if x.VBool? {
      OneByte(x.Bits());
    } else {
      AppendIsBigEndian(x.Bits(), x.Type().Size());
    }
  }

  lemma OneByte(v: nat)
    requires v < 0x100
    ensures Append(v, 1) == [v]
  {
  }

  /** What the readers make of any bytes: their value in network byte order, less the range when
      the sign bit is set; any byte but 1 is false. */
  lemma ScalarOfBytes(t: ScalarType, s: seq<uint8>)
    requires t.Valid() && t.Size() <= |s|
    ensures var v := Value(s[..t.Size()]);
            ExtractScalar(t, s) == match t
                                   case TUint(w) => VUint(w, v)
                                   case TInt(w) => VInt(w, if s[0] < 0x80 then v else v - Pow256(w))
                                   case TFloat(w) => VFloat(w, v)
                                   case TBool => VBool(s[0] == 1)
  {
    hide Extract, Value, Pow256;
    ExtractIsValue(s, t.Size());
    if t.TInt? {
      SignBit(s[..t.w]);
    }
    if t.TBool? {
      ValueOfOne(s[..1]);
    }
  }

  lemma ExtractIsValue(s: seq<uint8>, w: nat)
    requires (w == 1 || w == 2 || w == 4 || w == 8) && w <= |s|
    ensures Extract(s, w) == Value(s[..w])
  {
    hide *;
    var x := s[..w];
    assert |x| == w;
    BigEndianOfValue(x);
    AppendIsBigEndian(Value(x), w);
    ExtractAppend(Value(x), w, s[w..]);
    assert x + s[w..] == s;
  }

  lemma ValueOfOne(s: seq<uint8>)
    requires |s| == 1
    ensures Value(s) == s[0]
  {
    assert s[..0] == [];
  }

  /** The sign bit is the highest bit of the first byte. */
  lemma {:induction false} SignBit(s: seq<uint8>)
    requires s != []
    ensures s[0] < 0x80 <==> 2 * Value(s) < Pow256(|s|)
  {
    if |s| == 1 {
      ValueOfOne(s);
      assert Pow256(1) == 0x100;
    } else {
      var n := |s| - 1;
      SignBit(s[..n]);
      assert Value(s) == 0x100 * Value(s[..n]) + s[n];
      HalfEven(n);
    }
  }

  lemma HalfEven(n: nat)
    requires n > 0
    ensures Pow256(n) % 2 == 0 && Pow256(n + 1) == 0x100 * Pow256(n)
  {
    assert Pow256(n) == 0x100 * Pow256(n - 1);
  }

  /** The elements of a container lie one behind the other. */
  lemma {:induction false} ElementAt(elems: seq<seq<uint8>>, size: nat, i: nat, j: nat)
    requires (forall e :: e in elems ==> |e| == size) && i < |elems| && j == size * i
    ensures j + size <= |Concat(elems)| && Concat(elems)[j..j + size] == elems[i]
    decreases i
  {
    hide *;
    OneMore(size, i);
    ConcatFirst(elems, []);
    var c := Concat(elems[1..]);
    assert Concat(elems) + [] == Concat(elems) && c + [] == c;
    assert elems[0] in elems;
    if i == 0 {
      Within(elems[0], c, j);
    } else {
      NotBelow(size, i - 1);
      ElementAt(elems[1..], size, i - 1, j - size);
      Shifted(elems[0], c, j - size);
    }
  }

  lemma NotBelow(size: nat, k: nat)
    ensures size * k >= 0
  {
  }

  lemma Within(x: seq<uint8>, c: seq<uint8>, j: nat)
    requires j == |x| * 0
    ensures j == 0 && (x + c)[..|x|] == x
  {
  }

  lemma Shifted(x: seq<uint8>, c: seq<uint8>, j: nat)
    requires j + |x| <= |c|
    ensures (x + c)[|x| + j..|x| + j + |x|] == c[j..j + |x|]
  {
  }

  /** The bytes of a container: an array without a count, a vector or a string behind its byte count
      in 32 bits, which also says how many bytes follow. */
  lemma ContainerBytes(a: Arg)
    requires !a.ScalarA?
    ensures a.ArrayA? ==> Encode(a) == Concat(a.elems)
    ensures !a.ArrayA? ==>
              var n := |a.Image()| % 0x1_0000_0000;
              && Encode(a) == BigEndian(n, 4) + a.Image()[..n]
              && a.Image() == if a.StringA? then a.chars else Concat(a.elems)
  {
    hide Append, Concat, BigEndian;
    if !a.ArrayA? {
      AppendIsBigEndian(|a.Image()| % 0x1_0000_0000, 4);
    }
  }

  // ---------------------------------------------------------------- reading

  /** What reading yields: the value and the unread bytes, or that the bytes ran out, or that the
      reader gave up. */
  datatype Read<T> = Got(got: T, rest: seq<uint8>) | Short | Rejected

  /** A byte count as an int64 return value squeezed into an int. */
  function ToInt(n: int): int {
    (n + 0x8000_0000) % 0x1_0000_0000 - 0x8000_0000
  }

  /** Reading one argument of a known type; it is rejected when its byte count comes back from
      recv as a negative int. */
  function Decode(t: ArgType, s: seq<uint8>): (r: Read<Arg>)
    ensures r.Got? ==> |r.rest| <= |s|
  {
    match t
    case ScalarT(x) =>
      if |s| < x.Size() then Short else Got(ScalarA(ExtractScalar(x, s)), s[x.Size()..])
    case ArrayT(size, n) =>
      if |s| < size * n then Short
      else if ToInt(size * n) < 0 then Rejected
      else Got(ArrayA(size, Elements(s, size, n)), s[size * n..])
    case VectorT(size) =>
      if |s| < 4 || size == 0 then Short
      else
        var n := Extract(s, 4) / size;
        if |s| - 4 < size * n then Short
        else if ToInt(size * n) < 0 then Rejected
        else Got(VectorA(size, Elements(s[4..], size, n)), s[4..][size * n..])
    case StringT =>
      if |s| < 4 then Short
      else
        var n := Extract(s, 4);
        if |s| - 4 < n then Short
        else if ToInt(n) < 0 then Rejected
        else Got(StringA(s[4..][..n]), s[4..][n..])
  }

  function DecodeAll(ts: seq<ArgType>, s: seq<uint8>): (r: Read<seq<Arg>>)
    ensures r.Got? ==> |r.rest| <= |s| && |r.got| == |ts|
  {
    if ts == [] then Got([], s)
    else
      match Decode(ts[0], s)
      case Short => Short
      case Rejected => Rejected
      case Got(first, rest) =>
        match DecodeAll(ts[1..], rest)
        case Short => Short
        case Rejected => Rejected
        case Got(others, last) => Got([first] + others, last)
  }

  /** The arguments that survive the trip: the byte count of a vector or string, and the low 32
      bits of that of an array, come back from recv as a non-negative int. */
  predicate Fits(a: Arg) {
    match a
    case ScalarA(_) => true
    case ArrayA(_, _) => |a.Image()| % 0x1_0000_0000 < 0x8000_0000
    case _ => |a.Image()| < 0x8000_0000
  }

  lemma VectorImage(a: Arg)
    requires a.Valid() && (a.ArrayA? || a.VectorA?)
    ensures |a.Image()| == a.size * |a.elems|
  {
    ElementsOfConcat(a.elems, a.size, []);
  }

  lemma DecodeEncode(a: Arg, rest: seq<uint8>)
    requires a.Valid() && Fits(a)
    ensures Decode(a.Type(), Encode(a) + rest) == Got(a, rest)
  {
    match a
    case ScalarA(x) =>
      ScalarRoundTrip(x, rest);
    case ArrayA(_, _) =>
      DecodeArray(a, rest);
    case VectorA(_, _) =>
      DecodeVector(a, rest);
    case StringA(_) =>
      DecodeString(a, rest);
  }

  lemma DecodeString(a: Arg, rest: seq<uint8>)
    requires a.Valid() && Fits(a) && a.StringA?
    ensures Decode(a.Type(), Encode(a) + rest) == Got(a, rest)
  {
    hide Extract, Append, Encode, Decode, ToInt;
    CountAndImage(a, rest);
    var s, n := Encode(a) + rest, |a.Image()|;
    assert a.Image()[..n] == a.Image();
    assert s[4..][..n] == a.Image() && s[4..][n..] == rest;
    ToIntSign(n);
    StringVerdict(n, s);
  }

  lemma StringVerdict(n: nat, s: seq<uint8>)
    requires 4 + n <= |s| && Extract(s, 4) == n && ToInt(n) >= 0
    ensures Decode(StringT, s) == Got(StringA(s[4..][..n]), s[4..][n..])
  {
    hide Extract, ToInt;
  }

  lemma DecodeArray(a: Arg, rest: seq<uint8>)
    requires a.Valid() && Fits(a) && a.ArrayA?
    ensures Decode(a.Type(), Encode(a) + rest) == Got(a, rest)
  {
    hide Elements, Concat, ToInt;
    ElementsOfConcat(a.elems, a.size, rest);
    ToIntSign(|a.Image()|);
    var s := a.Image() + rest;
    assert s[|a.Image()|..] == rest;
    ArrayVerdict(a.size, |a.elems|, s);
  }

  lemma ArrayVerdict(size: nat, n: nat, s: seq<uint8>)
    requires size * n <= |s| && ToInt(size * n) >= 0
    ensures Decode(ArrayT(size, n), s) == Got(ArrayA(size, Elements(s, size, n)), s[size * n..])
  {
    hide Elements, ToInt;
  }

  lemma ToIntSign(n: nat)
    ensures ToInt(n) < 0 <==> n % 0x1_0000_0000 >= 0x8000_0000
  {
  }

  lemma DecodeVector(a: Arg, rest: seq<uint8>)
    requires a.Valid() && Fits(a) && a.VectorA?
    ensures Decode(a.Type(), Encode(a) + rest) == Got(a, rest)
  {
    hide Elements, Extract, Append, Encode, Decode, ToInt, Concat, Fits;
    ElementsOfConcat(a.elems, a.size, rest);
    CountAndImage(a, rest);
    CountFits(a);
    ImageAndRest(a.Image(), rest);
    VectorReads(a.size, |a.elems|, Encode(a) + rest);
  }

  lemma CountFits(a: Arg)
    requires a.Valid() && Fits(a) && (a.VectorA? || a.StringA?)
    ensures |a.Image()| % 0x1_0000_0000 == |a.Image()| && ToInt(|a.Image()|) >= 0
  {
    hide ToInt, Concat;
    ToIntSign(|a.Image()|);
  }

  lemma ImageAndRest(image: seq<uint8>, rest: seq<uint8>)
    ensures image[..|image|] == image && (image + rest)[|image|..] == rest
  {
  }

  lemma VectorReads(size: nat, m: nat, s: seq<uint8>)
    requires size > 0 && |s| - 4 >= size * m && Extract(s, 4) == size * m && ToInt(size * m) >= 0
    ensures Decode(VectorT(size), s) == Got(VectorA(size, Elements(s[4..], size, m)), s[4..][size * m..])
  {
    hide Elements, Extract, ToInt;
    MultipleDivides(size, m);
  }

  /** The prefix of an encoded vector or string. */
  lemma CountAndImage(a: Arg, rest: seq<uint8>)
    requires a.Valid() && (a.VectorA? || a.StringA?)
    ensures var n := |a.Image()| % 0x1_0000_0000; var s := Encode(a) + rest;
            && |s| == 4 + n + |rest| && Extract(s, 4) == n
            && s[4..] == a.Image()[..n] + rest
  {
    hide Append, Extract, Concat;
    var n := |a.Image()| % 0x1_0000_0000;
    ExtractAppend4(n, a.Image()[..n] + rest);
    assert Encode(a) + rest == Append(n, 4) + (a.Image()[..n] + rest);
  }

  /** Which arguments survive, in numbers: those whose bytes are fewer than 2^31, as far as their
      count is a 32-bit one for an array. */
  lemma Survives(a: Arg, rest: seq<uint8>)
    requires a.Valid()
    ensures Decode(a.Type(), Encode(a) + rest) == Got(a, rest) <==>
            match a
            case ScalarA(_) => true
            case ArrayA(size, elems) => size * |elems| % 4294967296 < 2147483648
            case VectorA(size, elems) => size * |elems| < 2147483648
            case StringA(chars) => |chars| < 2147483648
  {
    FitsAre(a);
    hide Decode, Encode, Fits;
    if Fits(a) {
      DecodeEncode(a, rest);
    } else {
      DecodeMisfit(a, rest);
    }
  }

  lemma FitsAre(a: Arg)
    requires a.Valid()
    ensures Fits(a) <==>
            match a
            case ScalarA(_) => true
            case ArrayA(size, elems) => size * |elems| % 4294967296 < 2147483648
            case VectorA(size, elems) => size * |elems| < 2147483648
            case StringA(chars) => |chars| < 2147483648
  {
    hide Concat;
    if a.ArrayA? || a.VectorA? {
      VectorImage(a);
    }
  }

  /** An argument that does not fit is rejected or comes back shortened. */
  lemma DecodeMisfit(a: Arg, rest: seq<uint8>)
    requires a.Valid() && !Fits(a)
    ensures var d := Decode(a.Type(), Encode(a) + rest); !d.Got? || d.got != a
  {
    hide Decode, Encode, Extract, Concat, ToInt, Shortened;
    match a
    case ArrayA(_, _) =>
      MisfitArray(a, rest);
    case VectorA(_, _) =>
      VectorImage(a);
      CountAndImage(a, rest);
      MisfitCount(a.size, |a.elems|, |a.Image()|);
      VectorVerdict(a, Encode(a) + rest, |a.Image()|);
    case StringA(_) =>
      CountAndImage(a, rest);
      MisfitString(a, Encode(a) + rest);
  }

  lemma MisfitArray(a: Arg, rest: seq<uint8>)
    requires a.Valid() && a.ArrayA? && !Fits(a)
    ensures !Decode(a.Type(), Encode(a) + rest).Got?
  {
    hide Elements, ToInt;
    VectorImage(a);
    ToIntSign(a.size * |a.elems|);
  }

  lemma MisfitString(a: Arg, s: seq<uint8>)
    requires a.Valid() && a.StringA? && !Fits(a)
    requires |s| >= 4 && Extract(s, 4) == |a.Image()| % 0x1_0000_0000
    ensures var d := Decode(a.Type(), s); !d.Got? || d.got != a
  {
    hide Extract, ToInt;
    ToIntSign(|a.chars| % 0x1_0000_0000);
  }

  /** The element count read back for a vector of m elements is rejected or smaller than m. */
  ghost predicate Shortened(size: nat, m: nat, image: nat)
    requires size > 0
  {
    var k := image % 0x1_0000_0000 / size;
    ToInt(size * k) < 0 || k < m
  }

  lemma MisfitCount(size: nat, m: nat, image: nat)
    requires size > 0 && image == size * m >= 0x8000_0000
    ensures Shortened(size, m, image)
  {
    hide ToInt;
    var n := image % 0x1_0000_0000;
    if image < 0x1_0000_0000 {
      MultipleDivides(size, m);
      ToIntSign(image);
    } else {
      QuotientBound(n, size);
      ProductOrder(size, n / size, m);
    }
  }

  lemma VectorVerdict(a: Arg, s: seq<uint8>, image: nat)
    requires a.VectorA? && a.size > 0 && |s| >= 4 && Extract(s, 4) == image % 0x1_0000_0000
    requires Shortened(a.size, |a.elems|, image)
    ensures var d := Decode(a.Type(), s); !d.Got? || d.got != a
  {
    hide Extract, ToInt;
  }

  lemma QuotientBound(n: nat, size: nat)
    requires size > 0
    ensures size * (n / size) <= n
  {
  }

  lemma ProductOrder(size: nat, j: nat, k: nat)
    requires size * j < size * k
    ensures j < k
  {
  }

  ghost predicate AllFit(args: seq<Arg>) {
    forall a :: a in args ==> Fits(a)
  }

  /** An argument list read back by its types is the same list, with exactly its own bytes
      consumed, if every argument fits; if one does not, it never comes back as the same list. */
  lemma {:induction false} RoundTrip(args: seq<Arg>, rest: seq<uint8>)
    requires ValidArgs(args)
    ensures var d := DecodeAll(Types(args), EncodeAll(args) + rest);
            if AllFit(args) then d == Got(args, rest) else !d.Got? || d.got != args
  {
    hide *;
    if args == [] {
      NoArgs(rest);
    } else {
      FirstArg(args, rest);
      RoundTrip(args[1..], rest);
      RoundTripStep(args, EncodeAll(args[1..]) + rest);
    }
  }

  lemma NoArgs(rest: seq<uint8>)
    ensures AllFit([]) && DecodeAll(Types([]), EncodeAll([]) + rest) == Got([], rest)
  {
    assert EncodeAll([]) + rest == rest;
  }

  lemma FirstArg(args: seq<Arg>, rest: seq<uint8>)
    requires ValidArgs(args) && args != []
    ensures EncodeAll(args) + rest == Encode(args[0]) + (EncodeAll(args[1..]) + rest)
    ensures |Types(args)| > 0 && Types(args)[0] == args[0].Type() && Types(args)[1..] == Types(args[1..])
    ensures args == [args[0]] + args[1..] && ValidArgs(args[1..])
    ensures AllFit(args) <==> Fits(args[0]) && AllFit(args[1..])
  {
    hide *;
    ValidRest(args);
    EncodeFirst(args, rest);
    TypesFirst(args);
    FitFirst(args);
  }

  lemma ValidRest(args: seq<Arg>)
    requires ValidArgs(args) && args != []
    ensures args == [args[0]] + args[1..] && ValidArgs(args[1..])
  {
  }

  lemma EncodeFirst(args: seq<Arg>, rest: seq<uint8>)
    requires ValidArgs(args) && args != []
    ensures EncodeAll(args) + rest == Encode(args[0]) + (EncodeAll(args[1..]) + rest)
  {
    hide Encode;
  }

  lemma TypesFirst(args: seq<Arg>)
    requires args != []
    ensures |Types(args)| > 0 && Types(args)[0] == args[0].Type() && Types(args)[1..] == Types(args[1..])
  {
  }

  lemma FitFirst(args: seq<Arg>)
    requires args != []
    ensures AllFit(args) <==> Fits(args[0]) && AllFit(args[1..])
  {
    hide Fits;
    assert forall a :: a in args <==> a == args[0] || a in args[1..];
  }

  lemma RoundTripStep(args: seq<Arg>, others: seq<uint8>)
    requires ValidArgs(args) && args != [] && |Types(args)| > 0
    requires Types(args)[0] == args[0].Type() && Types(args)[1..] == Types(args[1..])
    ensures var d := DecodeAll(Types(args), Encode(args[0]) + others);
            var e := DecodeAll(Types(args[1..]), others);
            if Fits(args[0]) && e.Got? then d == Got([args[0]] + e.got, e.rest)
            else !d.Got? || d.got[0] != args[0]
  {
    hide Encode, EncodeAll, Decode, Types, Fits;
    if Fits(args[0]) {
      DecodeEncode(args[0], others);
    } else {
      DecodeMisfit(args[0], others);
    }
  }
}
