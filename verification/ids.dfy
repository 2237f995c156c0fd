/**
 The id generator of the create handler: every `x` and `y` of the template
 `xxxxxxxx-xxxx-4xxx-yxxx-xxxxxxxxxxxx` is replaced, left to right, by one
 lower-case hex digit drawn from the random source; `x` takes the drawn
 nibble `r` as is, `y` takes `r & 0x3 | 0x8`. All other template characters
 are copied.

 The random source is a parameter: the sequence of nibbles that
 `Math.random() * 16 | 0` would have produced, one per placeholder.
 */
module Ids {

  /** One draw of `Math.random() * 16 | 0`. */
  type Nibble = n: int | 0 <= n < 16

  /** `xxxxxxxx-xxxx-4xxx-yxxx-xxxxxxxxxxxx`, written as its five hyphen-terminated groups. */
  const IdTemplate: string := "xxxxxxxx-" + "xxxx-" + "4xxx-" + "yxxx-" + "xxxxxxxxxxxx"

  /** The number of placeholders in `IdTemplate`, hence of random draws per id. */
  const IdDraws: nat := 31

  /** A lower-case hex digit, as produced by `toString(16)` on a value below 16. */
  predicate IsLowerHex(c: char) {
    ('0' <= c <= '9') || ('a' <= c <= 'f')
  }

  /** `v.toString(16)` for a single nibble. */
  function HexDigit(v: Nibble): (c: char)
    ensures IsLowerHex(c)
  {
    if v < 10 then ('0' as int + v) as char else ('a' as int + v - 10) as char
  }

  /** The nibble a lower-case hex digit stands for. */
  function HexValue(c: char): (v: Nibble)
    requires IsLowerHex(c)
    ensures HexDigit(v) == c
  {
    if c <= '9' then (c as int - '0' as int) else (c as int - 'a' as int + 10)
  }

  /** `r & 0x3 | 0x8` (`&` binds tighter than `|`): the RFC 4122 variant nibble. */
  function VariantNibble(r: Nibble): (v: Nibble)
    ensures v == 8 + r % 4
  {
    ((r as bv4 & 0x3) | 0x8) as int
  }

  /** What a template character admits at its position of a generated id. */
  predicate Fits(t: char, c: char) {
    if t == 'x' then IsLowerHex(c)
    else if t == 'y' then c == '8' || c == '9' || c == 'a' || c == 'b'
    else c == t
  }

  /** `s` has the template's length and every character fits the template character at its position. */
  predicate Conforms(t: string, s: string) {
    |s| == |t| && forall i :: 0 <= i < |t| ==> Fits(t[i], s[i])
  }

  /** The number of `x`/`y` placeholders of a template. */
  function Placeholders(t: string): nat {
    if t == [] then 0
    else (if t[0] == 'x' || t[0] == 'y' then 1 else 0) + Placeholders(t[1..])
  }

  /** Placeholders of a concatenation add up. */
  lemma {:induction false} PlaceholdersAppend(a: string, b: string)
    ensures Placeholders(a + b) == Placeholders(a) + Placeholders(b)
  {
    if a == [] {
      assert a + b == b;
    } else {
      assert (a + b)[0] == a[0];
      assert (a + b)[1..] == a[1..] + b;
      PlaceholdersAppend(a[1..], b);
    }
  }

  /** `t.replace(/[xy]/g, …)`, consuming one nibble of `draws` per placeholder. */
  function Substitute(t: string, draws: seq<Nibble>): (s: string)
    requires |draws| == Placeholders(t)
    ensures Conforms(t, s)
  {
    if t == [] then []
    else if t[0] == 'x' then [HexDigit(draws[0])] + Substitute(t[1..], draws[1..])
    else if t[0] == 'y' then [HexDigit(VariantNibble(draws[0]))] + Substitute(t[1..], draws[1..])
    else [t[0]] + Substitute(t[1..], draws)
  }

  /** Reads back, from a string conforming to `t`, draws that reproduce it. */
  function Recover(t: string, s: string): (draws: seq<Nibble>)
    requires Conforms(t, s)
    ensures |draws| == Placeholders(t)
  {
    if t == [] then []
    else
      assert Conforms(t[1..], s[1..]) by {
        forall i | 0 <= i < |t[1..]| ensures Fits(t[1..][i], s[1..][i]) {
          assert Fits(t[i + 1], s[i + 1]);
        }
      }
      assert Fits(t[0], s[0]);
      if t[0] == 'x' then [HexValue(s[0])] + Recover(t[1..], s[1..])
      else if t[0] == 'y' then [HexValue(s[0]) - 8] + Recover(t[1..], s[1..])
      else Recover(t[1..], s[1..])
  }

  /** Substitution reproduces any conforming string from the draws `Recover` reads back from it. */
  lemma {:induction false} SubstituteRecover(t: string, s: string)
    requires Conforms(t, s)
    ensures Substitute(t, Recover(t, s)) == s
    decreases |t|
  {
    if t != [] {
      assert Fits(t[0], s[0]);
      assert Conforms(t[1..], s[1..]) by {
        forall i | 0 <= i < |t[1..]| ensures Fits(t[1..][i], s[1..][i]) {
          assert Fits(t[i + 1], s[i + 1]);
        }
      }
      SubstituteRecover(t[1..], s[1..]);
      if t[0] == 'y' {
        assert VariantNibble(HexValue(s[0]) - 8) == HexValue(s[0]);
      }
      assert s == [s[0]] + s[1..];
    }
  }

  /** The id of `IdTemplate` laid out position by position. */
  predicate IsUuidShape(s: string) {
    && |s| == 36
    && forall i :: 0 <= i < |s| ==>
      if i == 8 || i == 13 || i == 18 || i == 23 then s[i] == '-'
      else if i == 14 then s[i] == '4'
      else if i == 19 then s[i] == '8' || s[i] == '9' || s[i] == 'a' || s[i] == 'b'
      else IsLowerHex(s[i])
  }

  /** The template has 36 characters, 31 of them placeholders. */
  lemma TemplateCounts()
    ensures |IdTemplate| == 36 && Placeholders(IdTemplate) == IdDraws
  {
    var g1, g2, g3, g4, g5 := "xxxxxxxx-", "xxxx-", "4xxx-", "yxxx-", "xxxxxxxxxxxx";
    PlaceholdersAppend(g1 + g2 + g3 + g4, g5);
    PlaceholdersAppend(g1 + g2 + g3, g4);
    PlaceholdersAppend(g1 + g2, g3);
    PlaceholdersAppend(g1, g2);
    assert Placeholders(g1) == 8 && Placeholders(g2) == 4 && Placeholders(g3) == 3;
    assert Placeholders(g4) == 4 && Placeholders(g5) == 12;
  }

  /** The template holds hyphens at 8, 13, 18, 23, the version `4` at 14, `y` at 19 and `x` elsewhere. */
  lemma TemplateLayout()
    ensures |IdTemplate| == 36 && Placeholders(IdTemplate) == IdDraws
    ensures forall i :: 0 <= i < 36 ==>
      IdTemplate[i] ==
        if i == 8 || i == 13 || i == 18 || i == 23 then '-'
        else if i == 14 then '4'
        else if i == 19 then 'y'
        else 'x'
  {
    TemplateCounts();
    var g1, g2, g3, g4, g5 := "xxxxxxxx-", "xxxx-", "4xxx-", "yxxx-", "xxxxxxxxxxxx";
    assert IdTemplate == g1 + g2 + g3 + g4 + g5;
    forall i | 0 <= i < 36
      ensures IdTemplate[i] ==
        if i == 8 || i == 13 || i == 18 || i == 23 then '-'
        else if i == 14 then '4'
        else if i == 19 then 'y'
        else 'x'
    {
      if i < 9 {
        assert IdTemplate[i] == g1[i];
      } else if i < 14 {
        assert IdTemplate[i] == g2[i - 9];
      } else if i < 19 {
        assert IdTemplate[i] == g3[i - 14];
      } else if i < 24 {
        assert IdTemplate[i] == g4[i - 19];
      } else {
        assert IdTemplate[i] == g5[i - 24];
      }
    }
  }

  /** Conforming to the template is the same as having the UUID shape. */
  lemma ConformsIsUuidShape(s: string)
    ensures Conforms(IdTemplate, s) <==> IsUuidShape(s)
  {
    TemplateLayout();
    if Conforms(IdTemplate, s) {
      forall i | 0 <= i < |s| ensures Fits(IdTemplate[i], s[i]) { }
    }
    if IsUuidShape(s) {
      forall i | 0 <= i < |IdTemplate| ensures Fits(IdTemplate[i], s[i]) { }
    }
  }

  /** A fresh id from 31 random draws. */
  function GenerateId(draws: seq<Nibble>): (id: string)
    requires |draws| == IdDraws
    ensures IsUuidShape(id)
  {
    TemplateLayout();
    var id := Substitute(IdTemplate, draws);
    ConformsIsUuidShape(id);
    id
  }

  /**
   The inverse of `GenerateId`: the draws an id of the UUID shape was
   generated from (for the variant position, the draw below 4 that yields it).
   Every string of the UUID shape is therefore a possible id.
   */
  function DrawsOf(id: string): (draws: seq<Nibble>)
    requires IsUuidShape(id)
    ensures |draws| == IdDraws && GenerateId(draws) == id
  {
    ConformsIsUuidShape(id);
    TemplateLayout();
    SubstituteRecover(IdTemplate, id);
    Recover(IdTemplate, id)
  }
}
