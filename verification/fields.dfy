/** Flat-field encodings used by the branch-call recorder
    (clang-ehminer/src/DataUtility.cpp, `addBranchCall`): vectors joined by a
    multi-character separator with a placeholder for "nothing", and counts
    written as decimal text. A decoder is defined here as the partner the
    encoding is meant to be read back with. */
module Fields {
  import opened Wrappers
  import opened Text

  /** The separator written between elements of a vector field. */
  const Sep: string := "#-_-#"

  /** What an empty field is stored as. */
  const Placeholder: string := "-"

  /** Elements joined by `sep`, in order. */
  function Join(v: seq<string>, sep: string): string
  {
    if |v| == 0 then ""
    else if |v| == 1 then v[0]
    else v[0] + sep + Join(v[1..], sep)
  }

  lemma {:induction false} JoinSnoc(v: seq<string>, x: string, sep: string)
    requires |v| > 0
    ensures Join(v + [x], sep) == Join(v, sep) + sep + x
  {
    if |v| == 1 {
      assert (v + [x])[1..] == [x];
    } else {
      assert (v + [x])[1..] == v[1..] + [x];
      JoinSnoc(v[1..], x, sep);
    }
  }

  /** The text the encoding loop has built after visiting the first `n`
      elements: each element is followed by a separator unless its index is
      `last`. The loop intends `last` to be the index of the final element. */
  function LoopJoin(v: seq<string>, n: nat, last: int): string
    requires n <= |v|
  {
    if n == 0 then ""
    else LoopJoin(v, n - 1, last) + v[n - 1] + (if n - 1 != last then Sep else "")
  }

  /** The loop's final text turned into a stored field value. */
  function WithPlaceholder(joined: string): string
  {
    if joined == "" then Placeholder else joined
  }

  /** The field a vector is stored as. */
  function Encode(v: seq<string>): string
  {
    WithPlaceholder(Join(v, Sep))
  }

  /** The encoding loop of `addBranchCall` for one vector field, where the
      separator test compares the index against `align - 1`. Every field but
      the argument-type list passes `align == |v|`. */
  method EncodeVectorField(v: seq<string>, align: nat) returns (r: string)
    ensures align == |v| ==> r == Encode(v)
    ensures |v| > 0 && (align == 0 || align > |v|) ==> r == Join(v, Sep) + Sep
    ensures r == WithPlaceholder(LoopJoin(v, |v|, align - 1))
  {
    var s := "";
    var i := 0;
    while i < |v|
      invariant i <= |v|
      invariant s == LoopJoin(v, i, align - 1)
    {
      s := s + v[i];
      if i != align - 1 {
        s := s + Sep;
      }
      i := i + 1;
    }
    if align == |v| {
      LoopJoinAligned(v);
    }
    if |v| > 0 && (align == 0 || align > |v|) {
      LoopJoinTrailing(v, |v|, align - 1);
      assert v[..|v|] == v;
    }
    if s == "" {
      s := Placeholder;
    }
    r := s;
  }

  /** The argument-type column as written, for one type but two log
      arguments: the loop leaves a trailing separator, and reading the column
      back yields an extra empty type. */
  lemma MisalignedTypeColumn()
    ensures WithPlaceholder(LoopJoin(["int"], 1, 1)) == "int#-_-#"
    ensures Decode(WithPlaceholder(LoopJoin(["int"], 1, 1))) == ["int", ""]
    ensures Decode(Encode(["int"])) == ["int"]
  {
    var s := "int#-_-#";
    assert LoopJoin(["int"], 1, 1) == s;
    assert s[3..8] == Sep;
    forall p | 0 <= p < 3
      ensures !OccursAt(s, Sep, p)
    {
      assert s[p..p + 5][0] == s[p] != '#';
    }
    FindExact(s, Sep, 0, 3);
    assert s[8..] == "";
    assert Find("", Sep, 0).None?;
    assert s[..3] == "int";
    assert Join(["int"], Sep) == "int";
    assert Find("int", Sep, 0).None?;
  }

  /** With `last == |v| - 1` the loop builds the standard join. */
  lemma {:induction false} LoopJoinAligned(v: seq<string>)
    ensures LoopJoin(v, |v|, |v| - 1) == Join(v, Sep)
  {
    if |v| > 0 {
      var n := |v| - 1;
      assert LoopJoin(v, n + 1, n) == LoopJoin(v, n, n) + v[n];
      LoopJoinPrefix(v, n);
      if n > 0 {
        assert v == v[..n] + [v[n]];
        JoinSnoc(v[..n], v[n], Sep);
      }
    }
  }

  lemma {:induction false} LoopJoinPrefix(v: seq<string>, n: nat)
    requires n < |v|
    ensures n > 0 ==> LoopJoin(v, n, |v| - 1) == Join(v[..n], Sep) + Sep
    ensures n == 0 ==> LoopJoin(v, n, |v| - 1) == ""
  {
    if n > 1 {
      LoopJoinPrefix(v, n - 1);
      assert v[..n] == v[..n - 1] + [v[n - 1]];
      JoinSnoc(v[..n - 1], v[n - 1], Sep);
    } else if n == 1 {
      assert v[..1] == [v[0]];
    }
  }

  /** When `last` is never reached every element, the final one included,
      is followed by a separator. */
  lemma {:induction false} LoopJoinTrailing(v: seq<string>, n: nat, last: int)
    requires 0 < n <= |v|
    requires last < 0 || last >= n
    ensures LoopJoin(v, n, last) == Join(v[..n], Sep) + Sep
  {
    if n == 1 {
      assert v[..1] == [v[0]];
    } else {
      LoopJoinTrailing(v, n - 1, last);
      assert v[..n] == v[..n - 1] + [v[n - 1]];
      JoinSnoc(v[..n - 1], v[n - 1], Sep);
    }
  }

  /** Leftmost, non-overlapping split on `sep`. */
  function Split(s: string, sep: string): (parts: seq<string>)
    requires |sep| > 0
    ensures |parts| >= 1
    decreases |s|
  {
    match Find(s, sep, 0)
    case None => [s]
    case Some(q) => [s[..q]] + Split(s[q + |sep|..], sep)
  }

  /** Reading a stored field back: the placeholder means no elements. */
  function Decode(s: string): seq<string>
  {
    if s == Placeholder then [] else Split(s, Sep)
  }

  /** No element contains the separator's first character. */
  predicate HashFree(v: seq<string>)
  {
    forall k :: 0 <= k < |v| ==> '#' !in v[k]
  }

  lemma NoSepIn(e: string)
    requires '#' !in e
    ensures forall p :: !OccursAt(e, Sep, p)
  {
    forall p: nat
      ensures !OccursAt(e, Sep, p)
    {
      if p + |Sep| <= |e| {
        assert e[p..p + |Sep|][0] == e[p];
        assert e[p] in e;
      }
    }
  }

  /** Splitting a join of hash-free elements gives the elements back. */
  lemma {:induction false} SplitJoin(v: seq<string>)
    requires |v| > 0 && HashFree(v)
    ensures Split(Join(v, Sep), Sep) == v
  {
    if |v| == 1 {
      NoSepIn(v[0]);
      assert Find(v[0], Sep, 0).None?;
    } else {
      var s := Join(v, Sep);
      var rest := Join(v[1..], Sep);
      var q := |v[0]|;
      assert s == v[0] + Sep + rest;
      assert s[q..q + |Sep|] == Sep;
      forall p | 0 <= p < q
        ensures !OccursAt(s, Sep, p)
      {
        assert s[p] == v[0][p] && v[0][p] in v[0];
        if p + |Sep| <= |s| {
          assert s[p..p + |Sep|][0] == s[p];
        }
      }
      FindExact(s, Sep, 0, q);
      assert s[..q] == v[0];
      assert s[q + |Sep|..] == rest;
      assert HashFree(v[1..]);
      SplitJoin(v[1..]);
    }
  }

  /** For hash-free vectors the encoding reads back exactly, except for the
      two one-element vectors that collide with the empty one. */
  lemma DecodeEncode(v: seq<string>)
    requires HashFree(v)
    ensures Decode(Encode(v)) == v <==> v != [""] && v != ["-"]
  {
    if |v| == 1 {
      if v[0] != "" && v[0] != "-" {
        SplitJoin(v);
      }
    } else if |v| >= 2 {
      assert Join(v, Sep) == v[0] + Sep + Join(v[1..], Sep);
      assert |Join(v, Sep)| >= |Sep|;
      SplitJoin(v);
    }
  }

  /** The placeholder cannot tell zero elements from one empty or one "-". */
  lemma EncodeCollisions()
    ensures Encode([]) == Placeholder
    ensures Encode([""]) == Placeholder
    ensures Encode(["-"]) == Placeholder
    ensures Decode(Placeholder) == []
  {
  }

  /** Hash-freedom is needed: elements free of the separator can still form
      it across a boundary, and the split then goes wrong. */
  lemma SeparatorFreeIsNotEnough()
    ensures !Contains("x#-_-", Sep) && !Contains("y", Sep)
    ensures Encode(["x#-_-", "y"]) == "x#-_-#-_-#y"
    ensures Decode(Encode(["x#-_-", "y"])) == ["x", "-_-#y"]
  {
    var s := "x#-_-#-_-#y";
    assert Join(["x#-_-", "y"], Sep) == s;
    assert s[1..6] == Sep;
    assert s[0..5] != Sep by { assert s[0] != Sep[0]; }
    FindExact(s, Sep, 0, 1);
    assert s[6..] == "-_-#y";
    assert "-_-#y"[0..5] != Sep by { assert "-_-#y"[0] != Sep[0]; }
    assert Find("-_-#y", Sep, 0).None?;
    assert s[..1] == "x";
    assert Split(s[6..], Sep) == ["-_-#y"];
    assert Split(s, Sep) == [s[..1]] + Split(s[6..], Sep);
    assert "x#-_-"[0..5] != Sep by { assert "x#-_-"[0] != Sep[0]; }
    assert Find("x#-_-", Sep, 0).None?;
    assert Find("y", Sep, 0).None?;
  }

  /** Escaping a joined field is joining the escaped elements: neither the
      separator nor the placeholder holds a quote. */
  lemma {:induction false} EscapeJoin(v: seq<string>)
    ensures EscapeQuotes(Join(v, Sep)) == Join(EscapeEach(v), Sep)
  {
    if |v| == 1 {
    } else if |v| >= 2 {
      EscapeQuotesAppend(v[0] + Sep, Join(v[1..], Sep));
      EscapeQuotesAppend(v[0], Sep);
      EscapeQuotesFree(Sep);
      assert EscapeEach(v)[1..] == EscapeEach(v[1..]);
      EscapeJoin(v[1..]);
    }
  }

  /** Every element escaped. */
  function EscapeEach(v: seq<string>): (w: seq<string>)
    ensures |w| == |v|
  {
    seq(|v|, i requires 0 <= i < |v| => EscapeQuotes(v[i]))
  }

  lemma EscapeEncode(v: seq<string>)
    ensures Escape(Encode(v)) == Encode(EscapeEach(v))
  {
    EscapeJoin(v);
    EscapeIsDoubling(Encode(v));
    EscapeQuotesEmpty(Join(v, Sep));
    if Join(v, Sep) == "" {
      EscapeQuotesFree(Placeholder);
    }
  }

  /** Decimal digit characters. */
  function DigitChar(d: nat): char
    requires d < 10
  {
    "0123456789"[d]
  }

  predicate IsDigits(s: string)
  {
    forall k :: 0 <= k < |s| ==> '0' <= s[k] <= '9'
  }

  /** `sprintf("%lu", n)`. */
  function NatToDecimal(n: nat): (s: string)
    ensures |s| >= 1 && IsDigits(s)
  {
    if n < 10 then [DigitChar(n)] else NatToDecimal(n / 10) + [DigitChar(n % 10)]
  }

  /** `sprintf("%d", n)`. */
  function IntToDecimal(n: int): string
  {
    if n < 0 then "-" + NatToDecimal(-n) else NatToDecimal(n)
  }

  /** `atoi` on a string of decimal digits. */
  function ParseDecimal(s: string): nat
    requires IsDigits(s)
  {
    if |s| == 0 then 0
    else ParseDecimal(s[..|s| - 1]) * 10 + (s[|s| - 1] as int - '0' as int)
  }

  lemma DigitsHashFree(s: string)
    requires IsDigits(s)
    ensures '#' !in s && '-' !in s
  {
    assert forall k :: 0 <= k < |s| ==> s[k] != '#' && s[k] != '-';
  }

  /** Reading a written count gives the count back. */
  lemma {:induction false} ParseNatToDecimal(n: nat)
    ensures ParseDecimal(NatToDecimal(n)) == n
  {
    if n >= 10 {
      var s := NatToDecimal(n);
      assert s[..|s| - 1] == NatToDecimal(n / 10);
      ParseNatToDecimal(n / 10);
    }
  }

  /** What `sprintf("%d", n)` can produce: digits, after a `-` for a
      negative number. */
  predicate IsSignedDecimal(s: string)
  {
    if |s| >= 1 && s[0] == '-' then |s| >= 2 && IsDigits(s[1..]) else |s| >= 1 && IsDigits(s)
  }

  /** `atoi` on a signed decimal. */
  function ParseSigned(s: string): int
    requires IsSignedDecimal(s)
  {
    if s[0] == '-' then -(ParseDecimal(s[1..]) as int) else ParseDecimal(s)
  }

  lemma ParseNegative(t: string)
    requires |t| >= 1 && IsDigits(t)
    ensures IsSignedDecimal("-" + t) && ParseSigned("-" + t) == -(ParseDecimal(t) as int)
  {
    assert ("-" + t)[1..] == t;
  }

  lemma ParseUnsigned(t: string)
    requires |t| >= 1 && IsDigits(t)
    ensures IsSignedDecimal(t) && ParseSigned(t) == ParseDecimal(t)
  {
    assert '0' <= t[0] <= '9';
  }

  /** Reading a written number gives the number back. */
  lemma ParseIntToDecimal(n: int)
    ensures IsSignedDecimal(IntToDecimal(n)) && ParseSigned(IntToDecimal(n)) == n
  {
    if n < 0 {
      ParseNegativeDecimal(n);
    } else {
      ParseNatDecimal(n);
    }
  }

  lemma ParseNegativeDecimal(n: int)
    requires n < 0
    ensures IsSignedDecimal(IntToDecimal(n)) && ParseSigned(IntToDecimal(n)) == n
  {
    var m: nat := -n;
    var t := NatToDecimal(m);
    ParseNatToDecimal(m);
    ParseNegative(t);
    var s := "-" + t;
    assert ParseSigned(s) == n;
    assert IntToDecimal(n) == s;
  }

  lemma ParseNatDecimal(n: int)
    requires n >= 0
    ensures IsSignedDecimal(IntToDecimal(n)) && ParseSigned(IntToDecimal(n)) == n
  {
    var t := NatToDecimal(n);
    ParseNatToDecimal(n);
    ParseUnsigned(t);
    assert IntToDecimal(n) == t;
  }

  /** Decimal text of each number. */
  function DecimalEach(ns: seq<int>): (w: seq<string>)
    ensures |w| == |ns|
  {
    seq(|ns|, i requires 0 <= i < |ns| => IntToDecimal(ns[i]))
  }

  /** A rendered number is neither empty nor the placeholder and holds no `#`. */
  lemma DecimalFieldSafe(n: int)
    ensures '#' !in IntToDecimal(n) && IntToDecimal(n) != "" && IntToDecimal(n) != "-"
  {
    if n < 0 {
      assert |IntToDecimal(n)| >= 2;
      DigitsHashFree(NatToDecimal(-n));
    } else {
      DigitsHashFree(NatToDecimal(n));
    }
  }

  /** The path-number field always reads back to the numbers' text, and
      each piece parses back to its number. */
  lemma PathNumbersRoundTrip(ns: seq<int>)
    ensures Decode(Encode(DecimalEach(ns))) == DecimalEach(ns)
    ensures var w := Decode(Encode(DecimalEach(ns)));
      && |w| == |ns|
      && forall k :: 0 <= k < |ns| ==> IsSignedDecimal(w[k]) && ParseSigned(w[k]) == ns[k]
  {
    var w := DecimalEach(ns);
    forall k | 0 <= k < |w|
      ensures '#' !in w[k]
    {
      DecimalFieldSafe(ns[k]);
    }
    if |w| == 1 {
      DecimalFieldSafe(ns[0]);
    }
    DecodeEncode(w);
    forall k | 0 <= k < |ns|
      ensures IsSignedDecimal(w[k]) && ParseSigned(w[k]) == ns[k]
    {
      ParseIntToDecimal(ns[k]);
    }
  }
}
