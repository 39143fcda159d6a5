/** The text form of a tree node (base/ods_objects.cc) and the splitter it relies on (base/oram_utils.cc). */
module NodeText {
  import opened OramDefs
  import opened OdsObjects

  const UNDERSCORE: char := '_'
  const FIELD_COUNT: nat := 7
  const WORD: nat := 0x1_0000_0000
  const LONG: nat := 0x1_0000_0000_0000_0000

  // ----- decimal numbers --------------------------------------------------------------------------

  predicate IsDigit(c: char) {
    '0' <= c <= '9'
  }

  function DigitChar(d: nat): (c: char)
    requires d < 10
    ensures IsDigit(c) && DigitValue(c) == d
  {
    "0123456789"[d]
  }

  function DigitValue(c: char): nat
    requires IsDigit(c)
  {
    c as int - '0' as int
  }

  /** `std::to_string` of an unsigned number. */
  function Decimal(n: nat): (s: string)
    ensures s != [] && forall c :: c in s ==> IsDigit(c)
  {
    if n < 10 then [DigitChar(n)] else Decimal(n / 10) + [DigitChar(n % 10)]
  }

  function ValueOf(s: string): nat
    requires forall c :: c in s ==> IsDigit(c)
  {
    if s == [] then 0 else 10 * ValueOf(s[..|s| - 1]) + DigitValue(s[|s| - 1])
  }

  /** The longest prefix of digits. */
  function LeadingDigits(s: string): (r: string)
    ensures forall c :: c in r ==> IsDigit(c)
  {
    if s == [] || !IsDigit(s[0]) then [] else [s[0]] + LeadingDigits(s[1..])
  }

  /** `std::stoul`, then the conversion to 32 bits. It throws without digits or beyond 64 bits. */
  function Stoul(s: string): Option<nat> {
    var digits := LeadingDigits(s);
    if digits == [] || ValueOf(digits) >= LONG then None else Some(ValueOf(digits) % WORD)
  }

  lemma {:induction false} ValueOfDecimal(n: nat)
    ensures ValueOf(Decimal(n)) == n
  {
    if n >= 10 {
      ValueOfDecimal(n / 10);
    }
  }

  lemma {:induction false} AllDigitsLead(s: string)
    requires forall c :: c in s ==> IsDigit(c)
    ensures LeadingDigits(s) == s
  {
    if s != [] {
      AllDigitsLead(s[1..]);
    }
  }

  /** Printed numbers are read back, cut to 32 bits; beyond 64 bits they are refused. */
  lemma StoulReadsDecimal(n: nat)
    ensures Stoul(Decimal(n)) == if n < 0x1_0000_0000_0000_0000 then Some(n % 0x1_0000_0000) else None
    ensures n < WORD ==> Stoul(Decimal(n)) == Some(n)
  {
    hide Decimal, ValueOf, LeadingDigits;
    AllDigitsLead(Decimal(n));
    ValueOfDecimal(n);
  }

  // ----- splitting --------------------------------------------------------------------------------

  /** Characters before the first delimiter. */
  function UpTo(s: string, delim: char): (r: string)
    ensures |r| <= |s| && r == s[..|r|] && delim !in r
    ensures |r| < |s| ==> s[|r|] == delim
  {
    if s == [] || s[0] == delim then [] else [s[0]] + UpTo(s[1..], delim)
  }

  /** What repeated `getline` yields: a delimiter at the very end opens no further field. */
  function Fields(s: string, delim: char): seq<string> {
    if s == [] then [] else
    var head := UpTo(s, delim);
    if |head| == |s| then [head] else [head] + Fields(s[|head| + 1..], delim)
  }

  method Split(str: string, delim: char) returns (result: seq<string>)
    ensures result == Fields(str, delim)
  {
    result := [];
    var rest := str;
    while rest != []
      invariant result + Fields(rest, delim) == Fields(str, delim)
      decreases |rest|
    {
      var item := UpTo(rest, delim);
      result := result + [item];
      rest := if |item| == |rest| then [] else rest[|item| + 1..];
    }
  }

  function Occurrences(s: string, c: char): nat {
    if s == [] then 0 else (if s[0] == c then 1 else 0) + Occurrences(s[1..], c)
  }

  lemma {:induction false} UpToStops(a: string, delim: char, b: string)
    requires delim !in a
    ensures UpTo(a + [delim] + b, delim) == a
  {
    if a != [] {
      UpToStops(a[1..], delim, b);
      assert (a + [delim] + b)[1..] == a[1..] + [delim] + b;
    }
  }

  lemma FieldsCons(a: string, delim: char, b: string)
    requires delim !in a
    ensures Fields(a + [delim] + b, delim) == [a] + Fields(b, delim)
  {
    UpToStops(a, delim, b);
    assert (a + [delim] + b)[|a| + 1..] == b;
  }

  lemma {:induction false} UpToEnd(a: string, delim: char)
    requires delim !in a
    ensures UpTo(a, delim) == a
  {
    if a != [] {
      UpToEnd(a[1..], delim);
    }
  }

  lemma LastField(a: string, delim: char)
    requires a != [] && delim !in a
    ensures Fields(a, delim) == [a]
  {
    UpToEnd(a, delim);
  }

  /** A value with k delimiters contributes k+1 fields. */
  lemma {:induction false} FieldsOfValue(v: string, delim: char, b: string)
    ensures |Fields(v + [delim] + b, delim)| == Occurrences(v, delim) + 1 + |Fields(b, delim)|
    decreases |v|
  {
    var head := UpTo(v, delim);
    if |head| == |v| {
      NoOccurrence(v, delim);
      FieldsCons(v, delim, b);
    } else {
      var tail := v[|head| + 1..];
      assert v == head + [delim] + tail;
      SplitOccurrences(head, delim, tail);
      assert v + [delim] + b == head + [delim] + (tail + [delim] + b);
      FieldsCons(head, delim, tail + [delim] + b);
      FieldsOfValue(tail, delim, b);
    }
  }

  lemma {:induction false} NoOccurrence(s: string, c: char)
    ensures Occurrences(s, c) == 0 <==> c !in s
  {
    if s != [] {
      NoOccurrence(s[1..], c);
    }
  }

  lemma {:induction false} SplitOccurrences(a: string, c: char, b: string)
    requires c !in a
    ensures Occurrences(a + [c] + b, c) == 1 + Occurrences(b, c)
  {
    if a == [] {
      assert ([c] + b)[1..] == b;
      assert a + [c] + b == [c] + b;
    } else {
      SplitOccurrences(a[1..], c, b);
      assert (a + [c] + b)[1..] == a[1..] + [c] + b;
    }
  }

  // ----- nodes ------------------------------------------------------------------------------------

  /** The numeric fields are 32-bit words. */
  predicate Fits(n: TreeNode) {
    n.id < WORD && n.key < WORD && n.leftId < WORD && n.rightId < WORD && n.leftHeight < WORD && n.rightHeight < WORD
  }

  /** The four fields after the value. */
  function LinksText(n: TreeNode): string {
    Decimal(n.leftId) + [UNDERSCORE]
      + (Decimal(n.rightId) + [UNDERSCORE] + (Decimal(n.leftHeight) + [UNDERSCORE] + Decimal(n.rightHeight)))
  }

  function ToString(n: TreeNode): string {
    Decimal(n.id) + [UNDERSCORE] + (Decimal(n.key) + [UNDERSCORE] + (n.value + [UNDERSCORE] + LinksText(n)))
  }

  /** None stands for the failed field check or a number that does not parse. */
  function FromString(str: string): Option<TreeNode> {
    var data := Fields(str, UNDERSCORE);
    if |data| != FIELD_COUNT then None else
    match (Stoul(data[0]), Stoul(data[1]), Stoul(data[3]), Stoul(data[4]), Stoul(data[5]), Stoul(data[6]))
    case (Some(id), Some(key), Some(l), Some(r), Some(lh), Some(rh)) => Some(TreeNode(id, key, data[2], l, r, lh, rh))
    case _ => None
  }

  /** The text of a node, in the order of its fields. */
  lemma NodeAsText(n: TreeNode)
    ensures ToString(n)
      == Decimal(n.id) + "_" + Decimal(n.key) + "_" + n.value + "_" + Decimal(n.leftId) + "_" + Decimal(n.rightId)
         + "_" + Decimal(n.leftHeight) + "_" + Decimal(n.rightHeight)
  {
    hide Decimal;
  }

  /** Decimal digits, most significant first: a concrete node. */
  lemma NodeAsTextExample()
    ensures ToString(TreeNode(10, 205, "v", 3, 0, 1, 0)) == "10_205_v_3_0_1_0"
  {
    NodeAsText(TreeNode(10, 205, "v", 3, 0, 1, 0));
    assert Decimal(10) == "10" && Decimal(205) == "205" && Decimal(3) == "3" && Decimal(1) == "1" && Decimal(0) == "0";
  }

  /** Text is accepted only if it splits into seven fields, all but the third numbers. */
  lemma AcceptedText(str: string)
    ensures FromString(str).Some? ==>
      && |Fields(str, '_')| == 7
      && FromString(str).value.value == Fields(str, '_')[2]
      && Stoul(Fields(str, '_')[0]) == Some(FromString(str).value.id)
      && Stoul(Fields(str, '_')[1]) == Some(FromString(str).value.key)
      && Stoul(Fields(str, '_')[3]) == Some(FromString(str).value.leftId)
      && Stoul(Fields(str, '_')[4]) == Some(FromString(str).value.rightId)
      && Stoul(Fields(str, '_')[5]) == Some(FromString(str).value.leftHeight)
      && Stoul(Fields(str, '_')[6]) == Some(FromString(str).value.rightHeight)
  {
  }

  lemma LinksFields(n: TreeNode)
    ensures Fields(LinksText(n), UNDERSCORE)
      == [Decimal(n.leftId), Decimal(n.rightId), Decimal(n.leftHeight), Decimal(n.rightHeight)]
  {
    LastField(Decimal(n.rightHeight), UNDERSCORE);
    var t3 := Decimal(n.leftHeight) + [UNDERSCORE] + Decimal(n.rightHeight);
    FieldsCons(Decimal(n.leftHeight), UNDERSCORE, Decimal(n.rightHeight));
    FieldsCons(Decimal(n.rightId), UNDERSCORE, t3);
    FieldsCons(Decimal(n.leftId), UNDERSCORE, Decimal(n.rightId) + [UNDERSCORE] + t3);
  }

  lemma HeadFields(n: TreeNode)
    ensures Fields(ToString(n), UNDERSCORE)
      == [Decimal(n.id), Decimal(n.key)] + Fields(n.value + [UNDERSCORE] + LinksText(n), UNDERSCORE)
  {
    var t := n.value + [UNDERSCORE] + LinksText(n);
    FieldsCons(Decimal(n.key), UNDERSCORE, t);
    FieldsCons(Decimal(n.id), UNDERSCORE, Decimal(n.key) + [UNDERSCORE] + t);
  }

  /** A value with k underscores is split into 7+k fields. */
  lemma FieldCountOfNode(n: TreeNode)
    ensures |Fields(ToString(n), UNDERSCORE)| == FIELD_COUNT + Occurrences(n.value, UNDERSCORE)
  {
    HeadFields(n);
    FieldsOfValue(n.value, UNDERSCORE, LinksText(n));
    LinksFields(n);
  }

  /** Reading back what was printed yields the node if and only if its value contains no underscore. */
  lemma RoundTrip(n: TreeNode)
    requires Fits(n)
    ensures FromString(ToString(n)) == Some(n) <==> UNDERSCORE !in n.value
  {
    FieldCountOfNode(n);
    NoOccurrence(n.value, UNDERSCORE);
    if UNDERSCORE !in n.value {
      HeadFields(n);
      LinksFields(n);
      FieldsCons(n.value, UNDERSCORE, LinksText(n));
      StoulReadsDecimal(n.id);
      StoulReadsDecimal(n.key);
      StoulReadsDecimal(n.leftId);
      StoulReadsDecimal(n.rightId);
      StoulReadsDecimal(n.leftHeight);
      StoulReadsDecimal(n.rightHeight);
    }
  }
}
