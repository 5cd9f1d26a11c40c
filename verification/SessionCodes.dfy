/** Session codes as typed by people (security/SessionCodes.cpp, lines 51-88). */
module SessionCodes {
  import opened Bytes

  const DASH: byte := 45
  const SPACE: byte := 32

  function Upper(ch: byte): (u: byte) {
    if 97 <= ch <= 122 then ch - 32 else ch
  }

  /** Letters without I and O, digits without 0 and 1. */
  predicate InAlphabet(ch: byte) {
    (65 <= ch <= 90 && ch != 73 && ch != 79) || 50 <= ch <= 57
  }

  /** Dashes and spaces removed, letters in upper case. */
  function Compact(code: seq<byte>): (s: seq<byte>) {
    if code == [] then []
    else if code[0] == DASH || code[0] == SPACE then Compact(code[1..])
    else [Upper(code[0])] + Compact(code[1..])
  }

  predicate Complete(compact: seq<byte>) {
    |compact| == 8 && forall ch <- compact :: InAlphabet(ch)
  }

  function Normalized(code: seq<byte>): (r: Option<seq<byte>>) {
    var c := Compact(code);
    if Complete(c) then Some(c[..4] + [DASH] + c[4..8]) else None
  }

  predicate Verified(presented: seq<byte>, actual: seq<byte>) {
    var p, a := Normalized(presented), Normalized(actual);
    p.Some? && a.Some? && p.value == a.value
  }

  /** A code is accepted exactly when it is complete and has the same symbols, whatever its case and separators. */
  lemma VerifiedExactly(presented: seq<byte>, actual: seq<byte>)
    ensures Verified(presented, actual) <==> Complete(Compact(actual)) && Compact(presented) == Compact(actual)
  {
    var p, a := Compact(presented), Compact(actual);
    if Complete(p) && Complete(a) && p != a {
      var np, na := p[..4] + [DASH] + p[4..8], a[..4] + [DASH] + a[4..8];
      var i :| 0 <= i < 8 && p[i] != a[i];
      assert np[if i < 4 then i else i + 1] != na[if i < 4 then i else i + 1];
    }
  }

  predicate Capital(ch: byte) {
    65 <= ch <= 90
  }

  function Lowered(code: seq<byte>): (s: seq<byte>)
    ensures |s| == |code|
  {
    seq(|code|, i requires 0 <= i < |code| => if Capital(code[i]) then code[i] + 32 else code[i])
  }

  lemma LoweredIsSameExactly(code: seq<byte>)
    ensures Lowered(code) == code <==> forall ch <- code :: !Capital(ch)
  {
    if Lowered(code) == code {
      forall ch | ch in code ensures !Capital(ch) {
        var i :| 0 <= i < |code| && code[i] == ch;
        assert Lowered(code)[i] == code[i];
      }
    }
  }

  lemma {:induction false} CompactLowered(code: seq<byte>)
    ensures Compact(Lowered(code)) == Compact(code)
  {
    if code != [] {
      CompactLowered(code[1..]);
      assert Lowered(code)[1..] == Lowered(code[1..]);
    }
  }

  /** A complete code is recognised in lower case. */
  lemma LoweredVerifies(code: seq<byte>)
    requires Complete(Compact(code))
    ensures Verified(Lowered(code), code)
  {
    CompactLowered(code);
    VerifiedExactly(Lowered(code), code);
  }

  // ---------- what the check does not look at, and what it does ----------

  lemma {:induction false} CompactConcat(a: seq<byte>, b: seq<byte>)
    ensures Compact(a + b) == Compact(a) + Compact(b)
  {
    if a == [] {
      assert a + b == b;
    } else {
      assert (a + b)[1..] == a[1..] + b && (a + b)[0] == a[0];
      CompactConcat(a[1..], b);
    }
  }

  /** A dash or a space anywhere makes no difference. */
  lemma SeparatorsIgnored(a: seq<byte>, ch: byte, b: seq<byte>, actual: seq<byte>)
    requires ch == 45 || ch == 32
    ensures Verified(a + [ch] + b, actual) <==> Verified(a + b, actual)
  {
    CompactConcat(a + [ch], b);
    CompactConcat(a, [ch]);
    CompactConcat(a, b);
    CompactOne(ch);
    assert Compact(a) + [] == Compact(a);
  }

  /** Nor does the case of a letter. */
  lemma CaseIgnored(a: seq<byte>, ch: byte, b: seq<byte>, actual: seq<byte>)
    requires 97 <= ch <= 122
    ensures Verified(a + [ch] + b, actual) <==> Verified(a + [ch - 32 as byte] + b, actual)
  {
    CompactConcat(a + [ch], b);
    CompactConcat(a, [ch]);
    CompactConcat(a + [ch - 32 as byte], b);
    CompactConcat(a, [ch - 32 as byte]);
    CompactOne(ch);
    CompactOne(ch - 32);
  }

  lemma CompactOne(ch: byte)
    ensures Compact([ch]) == if ch == 45 || ch == 32 then [] else [if 97 <= ch <= 122 then ch - 32 else ch]
  {
    assert Compact([ch][1..]) == [];
  }

  /** The thirty-two symbols of a code: capital letters but I and O, digits but 0 and 1. */
  const SYMBOLS: seq<byte> := [65, 66, 67, 68, 69, 70, 71, 72, 74, 75, 76, 77, 78, 80, 81, 82, 83, 84, 85, 86, 87, 88, 89, 90,
                               50, 51, 52, 53, 54, 55, 56, 57]

  lemma AlphabetExactly(ch: byte)
    ensures InAlphabet(ch) <==> ch in SYMBOLS
  {
  }

  lemma {:induction false} PlainIsCompact(code: seq<byte>)
    requires forall ch <- code :: InAlphabet(ch)
    ensures Compact(code) == code
  {
    if code != [] {
      assert code[0] in code && forall ch <- code[1..] :: ch in code;
      PlainIsCompact(code[1..]);
    }
  }

  /** Codes written plainly, symbol by symbol, verify exactly if there are eight symbols and they are the same. */
  lemma PlainCodesExactly(presented: seq<byte>, actual: seq<byte>)
    requires (forall ch <- presented :: InAlphabet(ch)) && (forall ch <- actual :: InAlphabet(ch))
    ensures Verified(presented, actual) <==> |actual| == 8 && presented == actual
  {
    PlainIsCompact(presented);
    PlainIsCompact(actual);
    VerifiedExactly(presented, actual);
  }

  /** A code with any other symbol never verifies. */
  lemma OtherSymbolsRefused(a: seq<byte>, ch: byte, b: seq<byte>, actual: seq<byte>)
    requires ch != 45 && ch != 32 && !InAlphabet(ch) && !(97 <= ch <= 122)
    ensures !Verified(a + [ch] + b, actual)
  {
    CompactConcat(a + [ch], b);
    CompactConcat(a, [ch]);
    CompactOne(ch);
    VerifiedExactly(a + [ch] + b, actual);
    assert Compact(a + [ch] + b)[|Compact(a)|] == ch;
    assert ch in Compact(a + [ch] + b);
  }
}
