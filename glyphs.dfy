/**
 * The glyph vocabulary shared by the render transformer and the preview
 * reconciler: the generic die glyph, the six face glyphs (EMOJI_BY_NUMBER),
 * the fallback warning glyph, the reading of one stored roll character with
 * parseInt, and the "one glyph alone" test ONLY_ONE_EMOJI_REGEX.
 */
module Glyphs {

  /** U+1F3B2 GAME DIE: the placeholder inserted by the composer button. */
  const Die: char := '\U{1F3B2}'

  /** EMOJI_BY_NUMBER: U+2680 .. U+2685, the glyph of face n at index n - 1. */
  const Faces: seq<char> := ['\U{2680}', '\U{2681}', '\U{2682}', '\U{2683}', '\U{2684}', '\U{2685}']

  /** U+26A0 WARNING SIGN: shown when the roll is not a face number. */
  const Warning: char := '\U{26A0}'

  /** The seven glyphs the patterns accept: the die or any face. */
  predicate IsDieGlyph(c: char)
  {
    c == Die || c in Faces
  }

  /** The class [\n\r]. */
  predicate IsLineBreak(c: char)
  {
    c == '\n' || c == '\r'
  }

  /** The end of the longest run of line breaks that starts at i. */
  function SkipLineBreaks(t: string, i: nat): (j: nat)
    requires i <= |t|
    ensures i <= j <= |t|
    ensures forall k :: i <= k < j ==> IsLineBreak(t[k])
    ensures j < |t| ==> !IsLineBreak(t[j])
    decreases |t| - i
  {
    if i < |t| && IsLineBreak(t[i]) then SkipLineBreaks(t, i + 1) else i
  }

  /** Any run of line breaks that ends at a non-break is the one SkipLineBreaks finds. */
  lemma {:induction false} SkipLineBreaksUnique(t: string, i: nat, j: nat)
    requires i <= j <= |t|
    requires forall k :: i <= k < j ==> IsLineBreak(t[k])
    requires j < |t| ==> !IsLineBreak(t[j])
    ensures SkipLineBreaks(t, i) == j
    decreases j - i
  {
    if i < j {
      SkipLineBreaksUnique(t, i + 1, j);
    }
  }

  /**
   * ONLY_ONE_EMOJI_REGEX, /^[\n\r]*(die|[faces])[\n\r]*$/, read left to
   * right: a run of line breaks, one glyph, then line breaks to the end.
   */
  predicate OnlyOneEmoji(t: string)
  {
    var i := SkipLineBreaks(t, 0);
    i < |t| && IsDieGlyph(t[i]) && SkipLineBreaks(t, i + 1) == |t|
  }

  /**
   * The characters of t that are not line breaks, each reduced to whether it
   * is a die glyph: the part of a text that ONLY_ONE_EMOJI_REGEX looks at.
   */
  function Kinds(t: string): seq<bool>
  {
    if t == [] then []
    else (if IsLineBreak(t[0]) then [] else [IsDieGlyph(t[0])]) + Kinds(t[1..])
  }

  /**
   * Kinds is empty exactly for a text of line breaks only, and records a
   * glyph exactly when the text holds one.
   */
  lemma {:induction false} KindsMeaning(t: string)
    ensures Kinds(t) == [] <==> forall k :: 0 <= k < |t| ==> IsLineBreak(t[k])
    ensures true in Kinds(t) <==> exists k :: 0 <= k < |t| && IsDieGlyph(t[k])
  {
    if t != [] {
      KindsMeaning(t[1..]);
      assert forall k :: 1 <= k < |t| ==> t[k] == t[1..][k - 1];
      if exists k :: 0 <= k < |t[1..]| && IsDieGlyph(t[1..][k]) {
        var k :| 0 <= k < |t[1..]| && IsDieGlyph(t[1..][k]);
        assert IsDieGlyph(t[k + 1]);
      }
      if (forall k :: 0 <= k < |t| ==> IsLineBreak(t[k])) {
        assert forall k :: 0 <= k < |t[1..]| ==> IsLineBreak(t[1..][k]);
      }
    }
  }

  lemma {:induction false} KindsConcat(a: string, b: string)
    ensures Kinds(a + b) == Kinds(a) + Kinds(b)
    decreases |a|
  {
    if a == [] {
      assert a + b == b;
    } else {
      assert (a + b)[0] == a[0];
      assert (a + b)[1..] == a[1..] + b;
      KindsConcat(a[1..], b);
    }
  }

  /** The first non-break of t[i..] heads Kinds(t[i..]). */
  lemma {:induction false} KindsAfterSkip(t: string, i: nat)
    requires i <= |t|
    ensures var j := SkipLineBreaks(t, i);
      Kinds(t[i..]) == if j == |t| then [] else [IsDieGlyph(t[j])] + Kinds(t[j + 1..])
    decreases |t| - i
  {
    if i < |t| {
      assert t[i..][1..] == t[i + 1..];
      assert t[i..][0] == t[i];
      if IsLineBreak(t[i]) {
        assert Kinds(t[i..]) == Kinds(t[i + 1..]);
        KindsAfterSkip(t, i + 1);
      } else {
        assert SkipLineBreaks(t, i) == i;
        assert Kinds(t[i..]) == [IsDieGlyph(t[i])] + Kinds(t[i + 1..]);
      }
    } else {
      assert t[i..] == [];
    }
  }

  /**
   * ONLY_ONE_EMOJI_REGEX holds exactly when, line breaks aside, the text is a
   * single die glyph: both directions.
   */
  lemma OnlyOneEmojiKinds(t: string)
    ensures OnlyOneEmoji(t) <==> Kinds(t) == [true]
  {
    var i := SkipLineBreaks(t, 0);
    assert t[0..] == t;
    KindsAfterSkip(t, 0);
    if i < |t| {
      KindsAfterSkip(t, i + 1);
      var j := SkipLineBreaks(t, i + 1);
      if j < |t| {
        assert |Kinds(t[i + 1..])| >= 1;
        assert |Kinds(t)| >= 2;
      } else {
        assert Kinds(t[i + 1..]) == [];
        assert Kinds(t) == [IsDieGlyph(t[i])];
      }
    }
  }

  /** The placeholder is one glyph, and so is each face glyph. */
  lemma SingleGlyphsPass(g: char)
    requires IsDieGlyph(g)
    ensures OnlyOneEmoji([g]) && OnlyOneEmoji("\n" + [g] + "\r\n")
  {
  }

  /** Digits that parseInt can read from one character. */
  type Digit = d: int | 0 <= d <= 9

  /** The JavaScript number parseInt gives for one roll: a digit or NaN. */
  datatype Parsed = Num(value: Digit) | NaN

  /**
   * parseInt(rolls[k]): the k-th roll character read as a decimal digit;
   * NaN for any other character and for a roll past the end of the string
   * (parseInt(undefined)).
   */
  function ParseRoll(rolls: string, k: nat): (p: Parsed)
    ensures p.Num? <==> k < |rolls| && '0' <= rolls[k] <= '9'
  {
    if k < |rolls| && '0' <= rolls[k] <= '9' then Num(rolls[k] as int - '0' as int) else NaN
  }

  /** number + '': the text of the data-number attribute. */
  function DataNumber(p: Parsed): string
  {
    match p
    case Num(d) => [('0' as int + d) as char]
    case NaN => "NaN"
  }

  /** The data-number attribute spells the stored roll character back, or NaN. */
  lemma DataNumberOfRoll(rolls: string, k: nat)
    ensures DataNumber(ParseRoll(rolls, k))
      == if k < |rolls| && '0' <= rolls[k] <= '9' then [rolls[k]] else "NaN"
  {
  }

  /** EMOJI_BY_NUMBER[number - 1] || warning sign. */
  function FaceGlyph(p: Parsed): (g: char)
    ensures g == Warning <==> !(p.Num? && 1 <= p.value <= 6)
  {
    if p.Num? && 1 <= p.value <= 6 then Faces[p.value - 1] else Warning
  }

  /** Distinct faces show distinct glyphs, and each shown glyph is a die glyph. */
  lemma {:induction false} FaceGlyphInjective(a: Parsed, b: Parsed)
    requires FaceGlyph(a) != Warning && FaceGlyph(b) != Warning
    ensures IsDieGlyph(FaceGlyph(a))
    ensures FaceGlyph(a) == FaceGlyph(b) <==> a == b
  {
  }

  /** Roll character c in '1'..'6' shows face c; every other character shows the warning sign. */
  lemma RollFace(rolls: string, k: nat)
    ensures FaceGlyph(ParseRoll(rolls, k))
      == if k < |rolls| && '1' <= rolls[k] <= '6' then Faces[rolls[k] as int - '1' as int] else Warning
  {
  }
}
