/** Removal of Markdown code-fence markers: `output.replace(/```json|```/g, "")`.
    The global regular expression scans left to right; at each position it
    tries the longer alternative "```json" first, then "```"; a match is
    deleted and scanning resumes right after it, otherwise the character is
    kept and scanning moves on by one. */
module Fences {
  import opened Strings

  const Tagged: string := "```json"
  const Plain: string := "```"

  /** The text with every fence marker the regular expression matches
      deleted. */
  function StripFences(s: string): (r: string)
    ensures |r| <= |s|
    decreases |s|
  {
    if StartsWith(s, Tagged) then StripFences(s[|Tagged|..])
    else if StartsWith(s, Plain) then StripFences(s[|Plain|..])
    else if s == [] then []
    else [s[0]] + StripFences(s[1..])
  }

  /** A segmentation of the text into the pieces the scan sees: a deleted
      "```json", a deleted "```", or one kept character. */
  datatype Piece = TaggedFence | PlainFence | Keep(c: char)

  /** The text of one piece. */
  function PieceText(p: Piece): string {
    match p
    case TaggedFence => Tagged
    case PlainFence => Plain
    case Keep(c) => [c]
  }

  /** The text a segmentation covers. */
  function Covered(ps: seq<Piece>): (s: string)
    decreases |ps|
  {
    if ps == [] then [] else PieceText(ps[0]) + Covered(ps[1..])
  }

  /** What the scan sees at the start of a text that begins with piece `p`. */
  lemma PieceFacts(p: Piece, rest: string)
    ensures var s := PieceText(p) + rest;
      && (p == TaggedFence ==> StartsWith(s, Tagged) && s[|Tagged|..] == rest)
      && (p == PlainFence ==>
            && StartsWith(s, Plain) && s[|Plain|..] == rest
            && (StartsWith(s, Tagged) <==> StartsWith(rest, "json")))
      && (p.Keep? ==> s != [] && s[0] == p.c && s[1..] == rest)
      && (StartsWith(s, Tagged) ==> StartsWith(s, Plain))
  {
    var s := PieceText(p) + rest;
    match p {
      case TaggedFence =>
        assert s[..|Tagged|] == Tagged;
      case PlainFence =>
        assert s[..|Plain|] == Plain;
        if |rest| >= 4 {
          assert s[..|Tagged|] == Plain + rest[..4];
        }
      case Keep(c) =>
    }
    if StartsWith(s, Tagged) {
      assert s[..|Plain|] == s[..|Tagged|][..|Plain|];
    }
  }

  /** The characters a segmentation keeps, in order. */
  function Kept(ps: seq<Piece>): (s: string)
    decreases |ps|
  {
    if ps == [] then []
    else (if ps[0].Keep? then [ps[0].c] else []) + Kept(ps[1..])
  }

  function TaggedCount(ps: seq<Piece>): nat
    decreases |ps|
  {
    if ps == [] then 0 else (if ps[0] == TaggedFence then 1 else 0) + TaggedCount(ps[1..])
  }

  function PlainCount(ps: seq<Piece>): nat
    decreases |ps|
  {
    if ps == [] then 0 else (if ps[0] == PlainFence then 1 else 0) + PlainCount(ps[1..])
  }

  /** The segmentation follows the regular expression's leftmost-first
      matching: a "```" is taken as a plain fence only where "```json" does
      not match, and a character is kept only where no fence starts. */
  predicate Greedy(ps: seq<Piece>)
    decreases |ps|
  {
    if ps == [] then true
    else
      var here := match ps[0]
        case TaggedFence => true
        case PlainFence => !StartsWith(Covered(ps[1..]), "json")
        case Keep(c) => !StartsWith([c] + Covered(ps[1..]), Plain);
      here && Greedy(ps[1..])
  }

  /** The segmentation the scan produces. */
  function Segment(s: string): (ps: seq<Piece>)
    decreases |s|
  {
    if StartsWith(s, Tagged) then [TaggedFence] + Segment(s[|Tagged|..])
    else if StartsWith(s, Plain) then [PlainFence] + Segment(s[|Plain|..])
    else if s == [] then []
    else [Keep(s[0])] + Segment(s[1..])
  }

  /** The scan's segmentation covers the text exactly and is greedy. */
  lemma {:induction false} SegmentCovers(s: string)
    ensures Covered(Segment(s)) == s
    ensures Greedy(Segment(s))
    decreases |s|
  {
    var ps := Segment(s);
    if s != [] {
      var rest := s[|PieceText(ps[0])|..];
      SegmentCovers(rest);
      assert ps[1..] == Segment(rest);
      assert s == PieceText(ps[0]) + rest;
      PieceFacts(ps[0], rest);
    }
  }

  /** Any greedy segmentation of a text determines what stripping leaves:
      exactly its kept characters, in order. */
  lemma {:induction false} StripKeepsUnmatched(ps: seq<Piece>)
    requires Greedy(ps)
    ensures StripFences(Covered(ps)) == Kept(ps)
    decreases |ps|
  {
    if ps != [] {
      StripKeepsUnmatched(ps[1..]);
      PieceFacts(ps[0], Covered(ps[1..]));
    }
  }

  /** There is only one greedy segmentation of a text. */
  lemma {:induction false} GreedyUnique(ps: seq<Piece>, qs: seq<Piece>)
    requires Greedy(ps) && Greedy(qs) && Covered(ps) == Covered(qs)
    ensures ps == qs
    decreases |ps|
  {
    if ps != [] && qs != [] {
      PieceFacts(ps[0], Covered(ps[1..]));
      PieceFacts(qs[0], Covered(qs[1..]));
      assert ps[0] == qs[0];
      GreedyUnique(ps[1..], qs[1..]);
      assert ps == [ps[0]] + ps[1..] && qs == [qs[0]] + qs[1..];
    }
  }

  /** A segmentation of fence markers only, with no kept character. */
  predicate FencesOnly(ps: seq<Piece>) {
    forall i :: 0 <= i < |ps| ==> !ps[i].Keep?
  }

  /** Text made of fence markers only is greedily segmented into them, and
      nothing of it is kept; it starts with a backtick and ends with a
      backtick or the "n" of "json". */
  lemma {:induction false} FencesOnlyGreedy(ps: seq<Piece>)
    requires FencesOnly(ps)
    ensures Greedy(ps) && Kept(ps) == []
    ensures Covered(ps) != [] ==> Covered(ps)[0] == '`' && Covered(ps)[|Covered(ps)| - 1] in "`n"
    decreases |ps|
  {
    if ps != [] {
      var rest := ps[1..];
      assert FencesOnly(rest) by {
        forall i | 0 <= i < |rest| ensures !rest[i].Keep? {
          assert rest[i] == ps[i + 1];
        }
      }
      FencesOnlyGreedy(rest);
      assert !ps[0].Keep?;
      var h, t := PieceText(ps[0]), Covered(rest);
      assert h[0] == '`' && h[|h| - 1] in "`n" by {
        if ps[0] == TaggedFence { assert h == Tagged; } else { assert h == Plain; }
      }
      if |t| >= 4 {
        assert t[..4][0] == t[0];
      }
      assert !StartsWith(t, "json");
      var c := h + t;
      assert c[0] == h[0];
      if t == [] {
        assert c == h;
      } else {
        assert c[|c| - 1] == t[|t| - 1];
      }
    }
  }

  /** Stripping removes exactly seven characters per "```json" and three per
      "```" of the scan's segmentation and nothing else. */
  lemma {:induction false} StripLength(ps: seq<Piece>)
    ensures |Covered(ps)| == |Kept(ps)| + 7 * TaggedCount(ps) + 3 * PlainCount(ps)
    decreases |ps|
  {
    if ps != [] {
      StripLength(ps[1..]);
    }
  }

  /** A text without backticks contains no fence and passes through
      unchanged; more generally such a prefix is copied as it stands. */
  lemma {:induction false} StripNoTickPrefix(x: string, y: string)
    requires '`' !in x
    ensures StripFences(x + y) == x + StripFences(y)
    decreases |x|
  {
    if x != [] {
      var s := x + y;
      assert s[0] == x[0] && s[1..] == x[1..] + y;
      StripKeepsHead(s);
      StripNoTickPrefix(x[1..], y);
      assert x == [x[0]] + x[1..];
    } else {
      assert x + y == y;
    }
  }

  lemma StripNoTick(x: string)
    requires '`' !in x
    ensures StripFences(x) == x
  {
    StripNoTickPrefix(x, []);
    assert x + [] == x;
  }

  /** A "```" starts at position `i` of `s`. */
  predicate FenceAt(s: string, i: nat)
    requires i <= |s|
  {
    StartsWith(s[i..], Plain)
  }

  /** No "```" occurs in `s`. */
  predicate NoPlain(s: string) {
    forall i :: 0 <= i <= |s| ==> !FenceAt(s, i)
  }

  lemma NoPlainCons(c: char, u: string)
    requires NoPlain(u)
    requires !StartsWith([c] + u, Plain)
    ensures NoPlain([c] + u)
  {
    var s := [c] + u;
    assert s[0..] == s;
    forall i | 1 <= i <= |s| ensures !FenceAt(s, i) {
      assert s[i..] == u[i - 1..];
      assert !FenceAt(u, i - 1);
    }
  }

  /** "```" at the start of a text, character by character. */
  lemma PlainAtStart(x: string)
    ensures StartsWith(x, Plain) <==> |x| >= 3 && x[0] == '`' && x[1] == '`' && x[2] == '`'
  {
    if |x| >= 3 {
      assert x[..3] == [x[0], x[1], x[2]];
    }
  }

  /** Where no fence starts, the scan keeps the first character. */
  lemma StripKeepsFirst(s: string)
    requires s != [] && !StartsWith(s, Plain)
    ensures StripFences(s) == [s[0]] + StripFences(s[1..])
  {
    if |s| >= |Tagged| {
      assert s[..|Plain|] == s[..|Tagged|][..|Plain|];
    }
  }

  /** Text that does not start with a backtick keeps its first character. */
  lemma StripKeepsHead(t: string)
    requires t != [] && t[0] != '`'
    ensures StripFences(t) == [t[0]] + StripFences(t[1..])
  {
    PlainAtStart(t);
    StripKeepsFirst(t);
  }

  /** A kept character never starts a "```" in the stripped text: after a
      kept backtick the scan keeps at most one more before a character that
      is not a backtick. */
  lemma KeptStartsNoPlain(s: string)
    requires s != [] && !StartsWith(s, Plain)
    ensures !StartsWith([s[0]] + StripFences(s[1..]), Plain)
  {
    var t := s[1..];
    var u := StripFences(t);
    var v := [s[0]] + u;
    PlainAtStart(s);
    PlainAtStart(v);
    if s[0] == '`' && t != [] {
      if t[0] != '`' {
        StripKeepsHead(t);
        assert v[1] == t[0];
      } else {
        PlainAtStart(t);
        StripKeepsFirst(t);
        var w := t[1..];
        if w != [] {
          assert w[0] == s[2];
          StripKeepsHead(w);
          assert v[2] == w[0];
        } else {
          assert |v| == 2;
        }
      }
    }
  }

  /** A fence is never left behind: the backticks the scan keeps never add
      up to "```", since a kept backtick is never followed by two more and a
      deleted fence is never preceded by a kept backtick. Single and double
      backticks may survive. */
  lemma {:induction false} StripNoPlain(s: string)
    ensures NoPlain(StripFences(s))
    decreases |s|
  {
    if StartsWith(s, Tagged) {
      StripNoPlain(s[|Tagged|..]);
    } else if StartsWith(s, Plain) {
      StripNoPlain(s[|Plain|..]);
    } else if s != [] {
      StripNoPlain(s[1..]);
      StripKeepsFirst(s);
      KeptStartsNoPlain(s);
      NoPlainCons(s[0], StripFences(s[1..]));
    }
  }

  /** Text without "```" is a fixed point of stripping. */
  lemma {:induction false} StripIdentityOnNoPlain(s: string)
    requires NoPlain(s)
    ensures StripFences(s) == s
    decreases |s|
  {
    if s != [] {
      assert !FenceAt(s, 0) && s[0..] == s;
      assert !StartsWith(s, Tagged) by {
        if |s| >= |Tagged| { assert s[..|Tagged|][..|Plain|] == s[..|Plain|]; }
      }
      var t := s[1..];
      assert NoPlain(t) by {
        forall i | 0 <= i <= |t| ensures !FenceAt(t, i) {
          assert t[i..] == s[i + 1..];
          assert !FenceAt(s, i + 1);
        }
      }
      StripIdentityOnNoPlain(t);
      assert s == [s[0]] + t;
    }
  }

  /** Stripping twice is stripping once. */
  lemma StripIdempotent(s: string)
    ensures StripFences(StripFences(s)) == StripFences(s)
  {
    StripNoPlain(s);
    StripIdentityOnNoPlain(StripFences(s));
  }

  /** One step of the scan at position `i`, stated on the suffix from `i`. */
  lemma StripAt(s: string, i: nat)
    requires i < |s|
    ensures StripFences(s[i..]) ==
      if i + |Tagged| <= |s| && s[i..i + |Tagged|] == Tagged then StripFences(s[i + |Tagged|..])
      else if i + |Plain| <= |s| && s[i..i + |Plain|] == Plain then StripFences(s[i + |Plain|..])
      else [s[i]] + StripFences(s[i + 1..])
  {
    var rest := s[i..];
    if i + |Tagged| <= |s| {
      assert rest[..|Tagged|] == s[i..i + |Tagged|];
      assert rest[|Tagged|..] == s[i + |Tagged|..];
    }
    if i + |Plain| <= |s| {
      assert rest[..|Plain|] == s[i..i + |Plain|];
      assert rest[|Plain|..] == s[i + |Plain|..];
    }
    assert rest[1..] == s[i + 1..];
  }

  /** The left-to-right scan the regular expression performs, written as a
      loop; it agrees with `StripFences`. */
  method RemoveFences(s: string) returns (r: string)
    ensures r == StripFences(s)
  {
    r := "";
    var i := 0;
    while i < |s|
      invariant 0 <= i <= |s|
      invariant r + StripFences(s[i..]) == StripFences(s)
      decreases |s| - i
    {
      StripAt(s, i);
      if i + |Tagged| <= |s| && s[i..i + |Tagged|] == Tagged {
        i := i + |Tagged|;
      } else if i + |Plain| <= |s| && s[i..i + |Plain|] == Plain {
        i := i + |Plain|;
      } else {
        r := r + [s[i]];
        i := i + 1;
      }
    }
    assert s[i..] == [];
  }
}
