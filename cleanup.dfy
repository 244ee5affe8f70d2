/** The cleanup the current route applies to the completion text before
    parsing it (server.js, lines 141-150): trim, delete fence markers, trim
    again, and close a truncated array by appending "]". */
module Cleanup {
  import opened Strings
  import opened Fences

  /** The truncated-array repair: append "]" unless the text already ends
      with one. The text is kept as a prefix and at most one character is
      added. */
  function Repair(s: string): (r: string)
    ensures EndsWith(r, "]")
    ensures |s| <= |r| <= |s| + 1 && r[..|s|] == s
    ensures r == s <==> EndsWith(s, "]")
  {
    if !EndsWith(s, "]") then s + "]" else s
  }

  /** The text the current route hands to the JSON parser (and reports as
      `rawOutput` when parsing fails). It always ends with "]" and is at
      most one character longer than the completion text. */
  function Cleaned(content: string): (r: string)
    ensures EndsWith(r, "]")
    ensures |r| <= |content| + 1
  {
    Repair(Trim(StripFences(Trim(content))))
  }

  /** The cleanup as the handler performs it, reassigning `output` step by
      step. */
  method CleanOutput(content: string) returns (output: string)
    ensures output == Cleaned(content)
    ensures EndsWith(output, "]")
  {
    output := Trim(content);
    var stripped := RemoveFences(output);
    output := Trim(stripped);
    if !EndsWith(output, "]") {
      output := output + "]";
    }
  }

  lemma BracketNotWs()
    ensures !IsWs(']') && !IsWs('`') && !IsWs('n')
  {
  }

  /** Trimming keeps a contiguous piece of the text, so it cannot add a
      character or a fence. */
  lemma TrimIsInfix(s: string) returns (i: nat, j: nat)
    ensures i <= j <= |s| && Trim(s) == s[i..j]
  {
    i, j := TrimCharacterized(s);
  }

  lemma TrimNoTick(s: string)
    requires '`' !in s
    ensures '`' !in Trim(s)
  {
    var i, j := TrimIsInfix(s);
  }

  lemma NoPlainInfix(s: string, i: nat, j: nat)
    requires NoPlain(s) && i <= j <= |s|
    ensures NoPlain(s[i..j])
  {
    var t := s[i..j];
    forall k | 0 <= k <= |t| ensures !FenceAt(t, k) {
      assert !FenceAt(s, i + k);
      if |t[k..]| >= 3 {
        assert t[k..][..3] == s[i + k..][..3];
      }
    }
  }

  lemma NoPlainSnoc(t: string, c: char)
    requires NoPlain(t) && c != '`'
    ensures NoPlain(t + [c])
  {
    var s := t + [c];
    forall k | 0 <= k <= |s| ensures !FenceAt(s, k) {
      if k + 3 <= |t| {
        assert !FenceAt(t, k);
        assert s[k..][..3] == t[k..][..3];
      } else if k + 3 == |s| {
        assert s[k..][..3] == s[k..];
        assert s[k..][2] == s[|s| - 1] == c;
      }
    }
  }

  /** Text with no backtick and no whitespace at either end passes through
      trim, fence removal and trim unchanged. */
  lemma PassThrough(s: string)
    requires '`' !in s && TrimmedEnds(s)
    ensures Trim(StripFences(Trim(s))) == s
    ensures Cleaned(s) == (if EndsWith(s, "]") then s else s + "]")
  {
    TrimNoop(s);
    StripNoTick(s);
  }

  /** Text whose ends are not whitespace and whose fence removal leaves
      no backtick is cleaned like what the fence removal leaves. */
  lemma CleanedAfterStrip(a: string, x: string)
    requires TrimmedEnds(a) && StripFences(a) == x && '`' !in x
    ensures Cleaned(a) == Cleaned(x)
  {
    TrimNoop(a);
    TrimNoTick(x);
    StripNoTick(Trim(x));
    TrimIdempotent(x);
  }

  /** A backtick-free text followed by a fence starts with "json" only if
      the text itself does. */
  lemma JsonBeforeFence(x: string)
    requires '`' !in x
    ensures StartsWith(x + Plain, "json") ==> StartsWith(x, "json")
  {
    var y := x + Plain;
    if |y| >= 4 && |x| < 4 {
      assert y[..4][|x|] == '`';
    } else if |x| >= 4 {
      assert y[..4] == x[..4];
    }
  }

  lemma StripWrapped(x: string)
    requires '`' !in x
    ensures StripFences(Tagged + x + Plain) == x
    ensures !StartsWith(x, "json") ==> StripFences(Plain + x + Plain) == x
  {
    assert StripFences(Plain) == "" by {
      assert Plain[|Plain|..] == "";
    }
    StripNoTickPrefix(x, Plain);
    assert x + Plain + "" == x + Plain;
    PieceFacts(TaggedFence, x + Plain);
    assert Tagged + x + Plain == Tagged + (x + Plain);
    PieceFacts(PlainFence, x + Plain);
    assert Plain + x + Plain == Plain + (x + Plain);
    JsonBeforeFence(x);
  }

  /** A completion wrapped in a "```json" fence is cleaned exactly as the
      same text without the fence, and so is one wrapped in plain fences
      unless its first word is "json". */
  lemma FencedLikeUnfenced(x: string)
    requires '`' !in x
    ensures Cleaned(Tagged + x + Plain) == Cleaned(x)
    ensures !StartsWith(x, "json") ==> Cleaned(Plain + x + Plain) == Cleaned(x)
  {
    assert !IsWs('`');
    StripWrapped(x);
    var a := Tagged + x + Plain;
    assert TrimmedEnds(a) by { assert a[0] == '`' && a[|a| - 1] == '`'; }
    CleanedAfterStrip(a, x);
    if !StartsWith(x, "json") {
      var b := Plain + x + Plain;
      assert TrimmedEnds(b) by { assert b[0] == '`' && b[|b| - 1] == '`'; }
      CleanedAfterStrip(b, x);
    }
  }

  /** Cleaning already-cleaned text changes nothing: the fence removal
      never leaves a "```" behind, and the repaired text ends with "]". */
  lemma CleanedIdempotent(content: string)
    ensures Cleaned(Cleaned(content)) == Cleaned(content)
  {
    var u := StripFences(Trim(content));
    var t := Trim(u);
    var c := Repair(t);
    assert c == Cleaned(content);
    StripNoPlain(Trim(content));
    CleanedNoPlain(u);
    TrimmedRepair(u);
    TrimNoop(c);
    StripIdentityOnNoPlain(c);
  }

  lemma CleanedNoPlain(u: string)
    requires NoPlain(u)
    ensures NoPlain(Repair(Trim(u)))
  {
    var t := Trim(u);
    var i, j := TrimIsInfix(u);
    NoPlainInfix(u, i, j);
    if !EndsWith(t, "]") {
      NoPlainSnoc(t, ']');
    }
  }

  lemma TrimmedRepair(u: string)
    ensures TrimmedEnds(Repair(Trim(u)))
  {
    var t := Trim(u);
    BracketNotWs();
    if !EndsWith(t, "]") {
      var c := t + "]";
      assert c[|c| - 1] == ']';
      if t != [] { assert c[0] == t[0]; }
    }
  }

  /** An empty completion is cleaned to a lone "]". */
  lemma CleanedEmpty()
    ensures Cleaned("") == "]"
  {
    var e: string := [];
    PassThrough(e);
    assert !EndsWith(e, "]");
    assert e + "]" == "]";
  }

  /** So is a completion made of fence markers only, such as
      "```json```". */
  lemma CleanedFencesOnly(ps: seq<Piece>)
    requires FencesOnly(ps)
    ensures Cleaned(Covered(ps)) == "]"
  {
    var c := Covered(ps);
    FencesOnlyGreedy(ps);
    StripKeepsUnmatched(ps);
    assert TrimmedEnds(c) by { BracketNotWs(); }
    TrimNoop(c);
    CleanedEmpty();
    PassThrough([]);
  }
}
