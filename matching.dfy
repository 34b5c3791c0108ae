/**
 * Text matching as the detection engine uses it: `String.prototype.includes`,
 * and a small fragment of ECMAScript regular expressions (literal characters,
 * simple character classes, a greedy `?` after one of them) together with the
 * leftmost, non-overlapping scan that `text.matchAll(new RegExp(src, 'g'))`
 * performs. The fragment is enough to give exact meaning to most rules of the
 * catalogs; rules outside it are left to the abstract engine of module Engine.
 */
module Matching {
  import opened Wrappers

  /** `s` occurs in `text` starting at index `i`. */
  predicate OccursAt(text: string, s: string, i: nat) {
    i + |s| <= |text| && text[i..i + |s|] == s
  }

  /** Every character lies in the Basic Multilingual Plane, so each is one UTF-16 code unit. */
  predicate Bmp(s: string) {
    forall i :: 0 <= i < |s| ==> s[i] as int < 0x1_0000
  }

  /** `text.includes(s)`; the empty string occurs in every text. */
  function Contains(text: string, s: string): (b: bool)
    ensures b <==> exists i: nat :: OccursAt(text, s, i)
    decreases |text|
  {
    if |text| < |s| then false
    else if text[..|s|] == s then assert OccursAt(text, s, 0); true
    else
      var b := Contains(text[1..], s);
      assert forall j: nat :: OccursAt(text[1..], s, j) <==> OccursAt(text, s, j + 1) by {
        forall j: nat ensures OccursAt(text[1..], s, j) <==> OccursAt(text, s, j + 1) {
          if j + 1 + |s| <= |text| {
            assert text[1..][j..j + |s|] == text[j + 1..j + 1 + |s|];
          }
        }
      }
      assert !OccursAt(text, s, 0);
      assert forall i: nat :: OccursAt(text, s, i) ==> i > 0 && OccursAt(text[1..], s, i - 1);
      b
  }

  /** An inclusive range of characters of a class such as `[a-z]`; a plain character `c` is `Range(c, c)`. */
  datatype Range = Range(lo: char, hi: char)

  /** One position of a pattern: the characters it accepts, and whether a greedy `?` follows it. */
  datatype Atom = Atom(ranges: seq<Range>, optional: bool)

  predicate Accepts(a: Atom, c: char) {
    exists k :: 0 <= k < |a.ranges| && a.ranges[k].lo <= c <= a.ranges[k].hi
  }

  /** The number of atoms that must consume a character. */
  function Mandatory(atoms: seq<Atom>): (m: nat)
    ensures m <= |atoms|
  {
    if atoms == [] then 0 else (if atoms[0].optional then 0 else 1) + Mandatory(atoms[1..])
  }

  /**
   * The end of the match of `atoms` that starts exactly at `pos`, trying, as
   * the ECMAScript backtracking matcher does, to take an optional atom before
   * skipping it.
   */
  function MatchFrom(atoms: seq<Atom>, text: string, pos: nat): (r: Option<nat>)
    requires pos <= |text|
    ensures r.Some? ==> pos + Mandatory(atoms) <= r.value <= pos + |atoms| && r.value <= |text|
    decreases |atoms|
  {
    if atoms == [] then Some(pos)
    else
      var taken := if pos < |text| && Accepts(atoms[0], text[pos]) then MatchFrom(atoms[1..], text, pos + 1) else None;
      if taken.Some? then taken
      else if atoms[0].optional then MatchFrom(atoms[1..], text, pos)
      else None
  }

  /**
   * The number of matches a global scan finds from `pos` on: after a match
   * ending at `end` the scan resumes at `end`, after an empty match one
   * position further on.
   */
  function CountFrom(atoms: seq<Atom>, text: string, pos: nat): (n: nat)
    requires pos <= |text|
    ensures n <= |text| - pos + 1
    decreases |text| - pos
  {
    match MatchFrom(atoms, text, pos)
    case Some(end) =>
      var next := if end == pos then pos + 1 else end;
      1 + (if next <= |text| then CountFrom(atoms, text, next) else 0)
    case None =>
      if pos < |text| then CountFrom(atoms, text, pos + 1) else 0
  }

  /** `[...text.matchAll(new RegExp(src, 'g'))].length` for a source in the fragment. */
  function Count(atoms: seq<Atom>, text: string): (n: nat)
    ensures n <= |text| + 1
    ensures n > 0 <==> exists i :: 0 <= i <= |text| && MatchFrom(atoms, text, i).Some?
  {
    CountFromPositive(atoms, text, 0);
    CountFrom(atoms, text, 0)
  }

  /** The scan from `pos` finds something exactly when the pattern matches at some position from `pos` on. */
  lemma {:induction false} CountFromPositive(atoms: seq<Atom>, text: string, pos: nat)
    requires pos <= |text|
    ensures CountFrom(atoms, text, pos) > 0 <==> exists i :: pos <= i <= |text| && MatchFrom(atoms, text, i).Some?
    decreases |text| - pos
  {
    if MatchFrom(atoms, text, pos).Some? {
      assert CountFrom(atoms, text, pos) >= 1;
      assert pos <= pos <= |text| && MatchFrom(atoms, text, pos).Some?;
      assert exists i :: pos <= i <= |text| && MatchFrom(atoms, text, i).Some?;
    } else if pos < |text| {
      CountFromPositive(atoms, text, pos + 1);
      assert CountFrom(atoms, text, pos) == CountFrom(atoms, text, pos + 1);
      if exists i :: pos <= i <= |text| && MatchFrom(atoms, text, i).Some? {
        var i :| pos <= i <= |text| && MatchFrom(atoms, text, i).Some?;
        assert pos + 1 <= i <= |text| && MatchFrom(atoms, text, i).Some?;
      }
      if CountFrom(atoms, text, pos + 1) > 0 {
        var i :| pos + 1 <= i <= |text| && MatchFrom(atoms, text, i).Some?;
        assert pos <= i <= |text| && MatchFrom(atoms, text, i).Some?;
      }
    } else {
      assert CountFrom(atoms, text, pos) == 0;
    }
  }

  /** Matches never overlap, so a pattern that consumes at least `m` characters fits at most `(|text| - pos) / m` times. */
  lemma {:induction false} CountFromBound(atoms: seq<Atom>, text: string, pos: nat)
    requires pos <= |text| && Mandatory(atoms) > 0
    ensures CountFrom(atoms, text, pos) * Mandatory(atoms) <= |text| - pos
    decreases |text| - pos
  {
    var m := Mandatory(atoms);
    var r := MatchFrom(atoms, text, pos);
    if r.Some? {
      var end := r.value;
      assert end >= pos + m;
      CountFromBound(atoms, text, end);
      var c := CountFrom(atoms, text, end);
      assert CountFrom(atoms, text, pos) == 1 + c;
      MulStep(c, m);
    } else if pos < |text| {
      CountFromBound(atoms, text, pos + 1);
    }
  }

  lemma MulStep(c: nat, m: nat)
    ensures (1 + c) * m == m + c * m
  {
  }

  /** A plain string read as a pattern: one mandatory single-character atom per character. */
  function Literal(s: string): (atoms: seq<Atom>)
    ensures |atoms| == |s| && Mandatory(atoms) == |s|
  {
    if s == [] then [] else [Atom([Range(s[0], s[0])], false)] + Literal(s[1..])
  }

  /** A literal pattern matches at `pos` exactly when the text continues with it there. */
  lemma {:induction false} MatchLiteral(s: string, text: string, pos: nat)
    requires pos <= |text|
    ensures MatchFrom(Literal(s), text, pos) == if OccursAt(text, s, pos) then Some(pos + |s|) else None
    decreases |s|
  {
    if s != [] {
      var atoms := Literal(s);
      assert atoms[0] == Atom([Range(s[0], s[0])], false);
      assert atoms[1..] == Literal(s[1..]);
      assert forall c :: Accepts(atoms[0], c) <==> c == s[0] by {
        forall c ensures Accepts(atoms[0], c) <==> c == s[0] {
          if c == s[0] {
            assert atoms[0].ranges[0].lo <= c <= atoms[0].ranges[0].hi;
          }
        }
      }
      if pos < |text| {
        MatchLiteral(s[1..], text, pos + 1);
        if OccursAt(text, s, pos) {
          assert text[pos] == s[0];
          assert text[pos + 1..pos + 1 + |s[1..]|] == s[1..];
        }
      }
    }
  }

  /** For a literal rule the global scan finds something exactly when `includes` does. */
  lemma LiteralCountIffContains(s: string, text: string)
    ensures Count(Literal(s), text) > 0 <==> Contains(text, s)
  {
    CountFromPositive(Literal(s), text, 0);
    forall i | 0 <= i <= |text|
      ensures MatchFrom(Literal(s), text, i).Some? <==> OccursAt(text, s, i)
    {
      MatchLiteral(s, text, i);
    }
    assert Count(Literal(s), text) == CountFrom(Literal(s), text, 0);
    if Contains(text, s) {
      var i: nat :| OccursAt(text, s, i);
      assert 0 <= i <= |text| && MatchFrom(Literal(s), text, i).Some?;
      assert exists j :: 0 <= j <= |text| && MatchFrom(Literal(s), text, j).Some?;
      CountFromPositive(Literal(s), text, 0);
      assert CountFrom(Literal(s), text, 0) > 0;
    }
    if Count(Literal(s), text) > 0 {
      var i :| 0 <= i <= |text| && MatchFrom(Literal(s), text, i).Some?;
      var k: nat := i;
      assert OccursAt(text, s, k);
      assert Contains(text, s);
    }
  }

  /** A non-empty literal pattern finds itself exactly once. */
  lemma CountLiteralSelf(s: string)
    requires |s| > 0
    ensures Count(Literal(s), s) == 1
  {
    MatchLiteral(s, s, 0);
    assert s[0..|s|] == s;
    MatchLiteral(s, s, |s|);
    assert CountFrom(Literal(s), s, |s|) == 0;
  }

  /** A non-empty literal that occurs at exactly one position is counted once by the scan from any earlier position. */
  lemma {:induction false} CountLiteralFrom(s: string, text: string, i: nat, pos: nat)
    requires |s| > 0 && pos <= i && OccursAt(text, s, i)
    requires forall j: nat :: OccursAt(text, s, j) ==> j == i
    ensures CountFrom(Literal(s), text, pos) == 1
    decreases i - pos
  {
    var atoms := Literal(s);
    MatchLiteral(s, text, pos);
    if pos < i {
      assert !OccursAt(text, s, pos);
      CountLiteralFrom(s, text, i, pos + 1);
    } else {
      var e := i + |s|;
      assert MatchFrom(atoms, text, pos) == Some(e);
      forall k | e <= k <= |text|
        ensures MatchFrom(atoms, text, k).None?
      {
        MatchLiteral(s, text, k);
        assert !OccursAt(text, s, k);
      }
      CountFromPositive(atoms, text, e);
      assert CountFrom(atoms, text, e) == 0;
    }
  }

  /** A non-empty literal that occurs at exactly one position of the text is counted once. */
  lemma CountLiteralOnce(s: string, text: string, i: nat)
    requires |s| > 0 && OccursAt(text, s, i)
    requires forall j: nat :: OccursAt(text, s, j) ==> j == i
    ensures Count(Literal(s), text) == 1
  {
    CountLiteralFrom(s, text, i, 0);
  }

  /** A pattern that must consume a character finds nothing in the empty text. */
  lemma CountEmpty(atoms: seq<Atom>)
    requires Mandatory(atoms) > 0
    ensures Count(atoms, "") == 0
  {
    CountFromBound(atoms, "", 0);
  }

  /** The scan past a position where nothing matches. */
  lemma CountFromMiss(atoms: seq<Atom>, text: string, pos: nat)
    requires pos < |text| && MatchFrom(atoms, text, pos).None?
    ensures CountFrom(atoms, text, pos) == CountFrom(atoms, text, pos + 1)
  {
  }

  /** The scan over a non-empty match resumes where the match ends. */
  lemma CountFromHit(atoms: seq<Atom>, text: string, pos: nat, end: nat)
    requires pos <= |text| && MatchFrom(atoms, text, pos) == Some(end) && end > pos
    ensures CountFrom(atoms, text, pos) == 1 + CountFrom(atoms, text, end)
  {
  }

  /** One mandatory class atom followed by a literal matches where the class accepts the character and the literal follows. */
  lemma {:induction false} MatchClassThenLiteral(a: Atom, s: string, text: string, pos: nat)
    requires !a.optional && pos <= |text|
    ensures MatchFrom([a] + Literal(s), text, pos)
            == if pos < |text| && Accepts(a, text[pos]) && OccursAt(text, s, pos + 1) then Some(pos + 1 + |s|) else None
  {
    var atoms := [a] + Literal(s);
    assert atoms[0] == a && atoms[1..] == Literal(s);
    if pos < |text| {
      MatchLiteral(s, text, pos + 1);
    }
  }

  /** Characters that are syntax outside a class; the fragment admits only `[`, `]` and a `?` after an atom. */
  predicate IsSyntaxChar(c: char) {
    c in "^$\\.*+?()[]{}|"
  }

  /** Characters the fragment does not admit inside a class (escapes, nesting, negation, a stray `-`). */
  predicate IsClassSpecial(c: char) {
    c in "\\[]^-"
  }

  predicate NoSyntax(s: string) {
    forall i :: 0 <= i < |s| ==> !IsSyntaxChar(s[i])
  }

  /** Reads the items of a class after its `[`, up to and including the closing `]`. */
  function ParseClass(s: string): (r: Option<(seq<Range>, string)>)
    ensures r.Some? ==> |r.value.1| < |s| && r.value.1 == s[|s| - |r.value.1|..]
    decreases |s|
  {
    if |s| == 0 then None
    else if s[0] == ']' then Some(([], s[1..]))
    else if IsClassSpecial(s[0]) then None
    else if |s| >= 3 && s[1] == '-' && s[2] != ']' then
      if IsClassSpecial(s[2]) || s[0] > s[2] then None
      else
        match ParseClass(s[3..])
        case None => None
        case Some(tail) => Some(([Range(s[0], s[2])] + tail.0, tail.1))
    else
      match ParseClass(s[1..])
      case None => None
      case Some(tail) => Some(([Range(s[0], s[0])] + tail.0, tail.1))
  }

  /** The atoms of a pattern source, or None when the source lies outside the fragment. */
  function Parse(src: string): (r: Option<seq<Atom>>)
    ensures r.Some? ==> |r.value| <= |src|
    ensures r.Some? && src != [] ==> r.value != []
    decreases |src|
  {
    if src == [] then Some([])
    else
      var head :=
        if src[0] == '[' then ParseClass(src[1..])
        else if IsSyntaxChar(src[0]) then None
        else Some(([Range(src[0], src[0])], src[1..]));
      match head
      case None => None
      case Some(h) =>
        if h.0 == [] then None
        else
          var optional := |h.1| > 0 && h.1[0] == '?';
          var rest := if optional then h.1[1..] else h.1;
          match Parse(rest)
          case None => None
          case Some(atoms) => Some([Atom(h.0, optional)] + atoms)
  }

  /** A source without syntax characters parses as the literal it spells. */
  lemma {:induction false} ParseLiteral(s: string)
    requires NoSyntax(s)
    ensures Parse(s) == Some(Literal(s))
    decreases |s|
  {
    if s != [] {
      assert NoSyntax(s[1..]);
      ParseLiteral(s[1..]);
      assert !IsSyntaxChar(s[0]);
      if |s| > 1 {
        assert !IsSyntaxChar(s[1]);
      }
    }
  }

  /** A source in the fragment that does not end in `?` must consume at least one character. */
  lemma {:induction false} ParseMandatory(src: string)
    requires Parse(src).Some? && src != [] && src[|src| - 1] != '?'
    ensures Mandatory(Parse(src).value) > 0
    decreases |src|
  {
    var head :=
      if src[0] == '[' then ParseClass(src[1..])
      else if IsSyntaxChar(src[0]) then None
      else Some(([Range(src[0], src[0])], src[1..]));
    var h := head.value;
    assert h.1 == src[|src| - |h.1|..];
    var optional := |h.1| > 0 && h.1[0] == '?';
    var rest := if optional then h.1[1..] else h.1;
    var atoms := Parse(rest).value;
    var all := [Atom(h.0, optional)] + atoms;
    assert Parse(src).value == all;
    assert all[0] == Atom(h.0, optional) && all[1..] == atoms;
    if optional {
      if rest == [] {
        assert false;
      }
      assert rest == src[|src| - |rest|..];
      assert rest[|rest| - 1] == src[|src| - 1];
      ParseMandatory(rest);
    }
  }

  /** A source that is one class followed by a literal that does not start with `?`. */
  lemma ParseClassThenLiteral(src: string, ranges: seq<Range>, tail: string)
    requires |src| >= 1 && src[0] == '[' && ParseClass(src[1..]) == Some((ranges, tail))
    requires ranges != [] && (tail == [] || tail[0] != '?') && NoSyntax(tail)
    ensures Parse(src) == Some([Atom(ranges, false)] + Literal(tail))
  {
    ParseLiteral(tail);
  }
}
