/**
 * Worked examples of the regular-expression fragment of module Matching on
 * concrete rules of the catalogs, kept apart from the catalogs so that each
 * proof sees only the strings it is about.
 */
module MatchingExamples {
  import opened Wrappers
  import opened Matching

  /** The word after the class of en005 has no syntax characters. */
  lemma UrthermoreIsLiteral()
    ensures NoSyntax("urthermore")
  {
  }

  /** The last item of the class of en005: `f]`, then the rest of the source. */
  lemma ParseFurthermoreClassTail()
    ensures ParseClass("f]urthermore") == Some(([Range('f', 'f')], "urthermore"))
  {
    var s := "f]urthermore";
    assert s[0] == 'f' && s[1] == ']' && |s| == 12 && !IsClassSpecial('f');
    assert s[1..] == "]urthermore" && "]urthermore"[1..] == "urthermore";
    assert ParseClass("]urthermore") == Some(([], "urthermore"));
    assert [Range('f', 'f')] + [] == [Range('f', 'f')];
  }

  /** The class body `Ff]` of en005, followed by the rest of the source. */
  lemma ParseFurthermoreClass()
    ensures ParseClass("Ff]urthermore") == Some(([Range('F', 'F'), Range('f', 'f')], "urthermore"))
  {
    var s := "Ff]urthermore";
    assert s[0] == 'F' && s[1] == 'f' && |s| == 13 && !IsClassSpecial('F');
    assert s[1..] == "f]urthermore";
    ParseFurthermoreClassTail();
    assert [Range('F', 'F')] + [Range('f', 'f')] == [Range('F', 'F'), Range('f', 'f')];
  }

  /** `[Ff]urthermore` parses as a two-character class followed by the literal "urthermore". */
  lemma ParseFurthermore()
    ensures Parse("[Ff]urthermore") == Some([Atom([Range('F', 'F'), Range('f', 'f')], false)] + Literal("urthermore"))
  {
    var src, tail := "[Ff]urthermore", "urthermore";
    assert src[0] == '[' && src[1..] == "Ff]urthermore";
    ParseFurthermoreClass();
    UrthermoreIsLiteral();
    assert tail[0] == 'u';
    ParseClassThenLiteral(src, [Range('F', 'F'), Range('f', 'f')], tail);
  }

  /** A class atom followed by a word matches where the class accepts the character and the word follows. */
  lemma ClassWordHit(a: Atom, w: string, t: string, pos: nat)
    requires !a.optional && pos < |t| && Accepts(a, t[pos]) && OccursAt(t, w, pos + 1)
    ensures MatchFrom([a] + Literal(w), t, pos) == Some(pos + 1 + |w|)
  {
    MatchClassThenLiteral(a, w, t, pos);
  }

  /** A class atom followed by a word does not match where the class rejects the character. */
  lemma ClassWordMiss(a: Atom, w: string, t: string, pos: nat)
    requires !a.optional && pos < |t| && !Accepts(a, t[pos])
    ensures MatchFrom([a] + Literal(w), t, pos).None?
  {
    MatchClassThenLiteral(a, w, t, pos);
  }

  /** A match followed by a position where nothing matches: the scan counts one and resumes after that position. */
  lemma HitThenMiss(atoms: seq<Atom>, t: string, pos: nat, end: nat)
    requires pos < end < |t| && MatchFrom(atoms, t, pos) == Some(end) && MatchFrom(atoms, t, end).None?
    ensures CountFrom(atoms, t, pos) == 1 + CountFrom(atoms, t, end + 1)
  {
    CountFromHit(atoms, t, pos, end);
    CountFromMiss(atoms, t, end);
  }

  /** A match that ends the text is the last one the scan counts. */
  lemma LastHit(atoms: seq<Atom>, t: string, pos: nat)
    requires pos < |t| && MatchFrom(atoms, t, pos) == Some(|t|) && Mandatory(atoms) > 0
    ensures CountFrom(atoms, t, pos) == 1
  {
    CountFromHit(atoms, t, pos, |t|);
    assert MatchFrom(atoms, t, |t|).None?;
  }

  /** Three matches of length `n`, separated by one position where nothing matches, fill the text: the scan counts three. */
  lemma CountThreeHits(atoms: seq<Atom>, t: string, n: nat)
    requires n > 0 && |t| == 3 * n + 2 && Mandatory(atoms) > 0
    requires MatchFrom(atoms, t, 0) == Some(n) && MatchFrom(atoms, t, n).None?
    requires MatchFrom(atoms, t, n + 1) == Some(2 * n + 1) && MatchFrom(atoms, t, 2 * n + 1).None?
    requires MatchFrom(atoms, t, 2 * n + 2) == Some(3 * n + 2)
    ensures Count(atoms, t) == 3
  {
    HitThenMiss(atoms, t, 0, n);
    HitThenMiss(atoms, t, n + 1, 2 * n + 1);
    LastHit(atoms, t, 2 * n + 2);
  }

  /** A text of three words, each after one lead character, with a separator before the second and the third lead. */
  function ThreeWords(w: string, c1: char, s1: char, c2: char, s2: char, c3: char): string {
    [c1] + w + [s1, c2] + w + [s2, c3] + w
  }

  /** Where the leads, the separators and the words of `ThreeWords` lie. */
  lemma ThreeWordsLayout(w: string, c1: char, s1: char, c2: char, s2: char, c3: char)
    ensures var t := ThreeWords(w, c1, s1, c2, s2, c3);
      && |t| == 3 * |w| + 5
      && t[0] == c1 && t[|w| + 1] == s1 && t[|w| + 2] == c2 && t[2 * |w| + 3] == s2 && t[2 * |w| + 4] == c3
      && OccursAt(t, w, 1) && OccursAt(t, w, |w| + 3) && OccursAt(t, w, 2 * |w| + 5)
  {
    var t := ThreeWords(w, c1, s1, c2, s2, c3);
    assert t[1..|w| + 1] == w;
    assert t[|w| + 3..2 * |w| + 3] == w;
    assert t[2 * |w| + 5..] == w;
  }

  /** Where the class-and-word pattern matches in a text of three words, and where it does not. */
  lemma ThreeWordsMatch(a: Atom, w: string, t: string, c1: char, s1: char, c2: char, s2: char, c3: char)
    requires !a.optional && t == ThreeWords(w, c1, s1, c2, s2, c3)
    requires Accepts(a, c1) && Accepts(a, c2) && Accepts(a, c3) && !Accepts(a, s1) && !Accepts(a, s2)
    ensures MatchFrom([a] + Literal(w), t, 0) == Some(|w| + 1)
    ensures MatchFrom([a] + Literal(w), t, |w| + 1).None?
    ensures MatchFrom([a] + Literal(w), t, |w| + 2) == Some(2 * |w| + 3)
    ensures MatchFrom([a] + Literal(w), t, 2 * |w| + 3).None?
    ensures MatchFrom([a] + Literal(w), t, 2 * |w| + 4) == Some(3 * |w| + 5)
  {
    var n := |w| + 1;
    ThreeWordsLayout(w, c1, s1, c2, s2, c3);
    assert t[0] == c1;
    ClassWordHit(a, w, t, 0);
    assert t[n] == s1;
    ClassWordMiss(a, w, t, n);
    assert t[n + 1] == c2;
    ClassWordHit(a, w, t, n + 1);
    assert t[2 * n + 1] == s2;
    ClassWordMiss(a, w, t, 2 * n + 1);
    assert t[2 * n + 2] == c3;
    ClassWordHit(a, w, t, 2 * n + 2);
  }

  /**
   * When the class accepts the three leads and rejects the two separators,
   * the global scan counts the class-and-word pattern three times.
   */
  lemma CountWordThrice(a: Atom, w: string, c1: char, s1: char, c2: char, s2: char, c3: char)
    requires !a.optional
    requires Accepts(a, c1) && Accepts(a, c2) && Accepts(a, c3) && !Accepts(a, s1) && !Accepts(a, s2)
    ensures Count([a] + Literal(w), ThreeWords(w, c1, s1, c2, s2, c3)) == 3
  {
    var t := ThreeWords(w, c1, s1, c2, s2, c3);
    ThreeWordsMatch(a, w, t, c1, s1, c2, s2, c3);
    var atoms := [a] + Literal(w);
    assert Mandatory(atoms) > 0 by { assert atoms[0] == a && atoms[1..] == Literal(w); }
    CountThreeHits(atoms, t, |w| + 1);
  }

  /** The example text of en005 spells "Furthermore furthermore Furthermore". */
  lemma FurthermoreText()
    ensures ThreeWords("urthermore", 'F', ' ', 'f', ' ', 'F') == "Furthermore furthermore Furthermore"
  {
  }

  /** The global scan finds `[Ff]urthermore` three times in "Furthermore furthermore Furthermore". */
  lemma FurthermoreCount()
    ensures Count([Atom([Range('F', 'F'), Range('f', 'f')], false)] + Literal("urthermore"),
                  ThreeWords("urthermore", 'F', ' ', 'f', ' ', 'F')) == 3
  {
    var a := Atom([Range('F', 'F'), Range('f', 'f')], false);
    assert Accepts(a, 'F') by { assert a.ranges[0].lo <= 'F' <= a.ranges[0].hi; }
    assert Accepts(a, 'f') by { assert a.ranges[1].lo <= 'f' <= a.ranges[1].hi; }
    CountWordThrice(a, "urthermore", 'F', ' ', 'f', ' ', 'F');
  }

  /** Every character of the example text of en005 is one UTF-16 code unit. */
  lemma FurthermoreBmp()
    ensures Bmp(ThreeWords("urthermore", 'F', ' ', 'f', ' ', 'F'))
  {
    FurthermoreText();
  }

  /** Every character of the source of en005 is one UTF-16 code unit. */
  lemma FurthermoreSourceBmp()
    ensures Bmp("[Ff]urthermore")
  {
  }

  /** The source of zh008 is plain text within the Basic Multilingual Plane. */
  lemma Zh008SourceIsLiteral()
    ensures NoSyntax("值得注意的是") && Bmp("值得注意的是")
  {
  }
}
