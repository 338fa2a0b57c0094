/** The Markdown code-fence marker "```" that both agents cut out of the
    model's replies, and the fact that removing every occurrence of it with
    `str.replace` cannot leave a new one behind. */
module Fences {
  import opened PyStrings

  const FENCE := "```"

  /** How many backticks `s` starts with. */
  function LeadingTicks(s: string): (n: nat)
    ensures n <= |s|
    ensures forall i :: 0 <= i < n ==> s[i] == '`'
    ensures n < |s| ==> s[n] != '`'
  {
    if s != [] && s[0] == '`' then 1 + LeadingTicks(s[1..]) else 0
  }

  lemma ThreeTicks(s: string)
    requires |s| >= 3 && s[0] == '`' && s[1] == '`' && s[2] == '`'
    ensures s[..3] == FENCE
  {
  }

  lemma FenceAtFront(c: char, s: string)
    requires MatchAt([c] + s, FENCE, 0)
    ensures c == '`' && LeadingTicks(s) >= 2
  {
    var t := [c] + s;
    assert t[..3][0] == '`' && t[..3][1] == '`' && t[..3][2] == '`';
    assert s[0] == t[1] && s[1] == t[2];
  }

  /** Putting one character in front of a string without fences creates one only
      when it is a backtick that completes a run of three. */
  lemma ConsKeepsNoFence(c: char, s: string)
    requires !Contains(s, FENCE)
    requires c != '`' || LeadingTicks(s) < 2
    ensures !Contains([c] + s, FENCE)
  {
    var t := [c] + s;
    if Contains(t, FENCE) {
      var j: nat :| j <= |t| && MatchAt(t, FENCE, j);
      if j == 0 {
        FenceAtFront(c, s);
        assert false;
      } else {
        assert t[j..j + 3] == s[j - 1..j + 2];
        assert MatchAt(s, FENCE, j - 1);
        assert false;
      }
    }
  }

  lemma LeadingTicksOfFence(s: string)
    requires |s| >= 3 && s[..3] == FENCE
    ensures LeadingTicks(s) == 3 + LeadingTicks(s[3..])
  {
    assert s[0] == '`' && s[1..][0] == '`' && s[1..][1..][0] == '`';
    assert s[1..][1..][1..] == s[3..];
  }

  lemma LeadingTicksNoFence(s: string)
    requires |s| >= 3 && s[..3] != FENCE && s[0] == '`'
    ensures LeadingTicks(s[1..]) < 2
  {
    if LeadingTicks(s[1..]) >= 2 {
      ThreeTicks(s);
      assert false;
    }
  }

  lemma ConsTicks(c: char, s: string)
    ensures LeadingTicks([c] + s) == if c == '`' then 1 + LeadingTicks(s) else 0
  {
    assert ([c] + s)[1..] == s;
  }

  lemma ShortHasNoFence(s: string)
    requires |s| < |FENCE|
    ensures Replace(s, FENCE, "") == s && !Contains(s, FENCE)
  {
  }

  lemma ReplaceAtFence(s: string)
    requires |s| >= |FENCE| && s[..3] == FENCE
    ensures Replace(s, FENCE, "") == Replace(s[3..], FENCE, "")
  {
  }

  lemma ReplaceElsewhere(s: string)
    requires |s| >= |FENCE| && s[..3] != FENCE
    ensures Replace(s, FENCE, "") == [s[0]] + Replace(s[1..], FENCE, "")
  {
  }

  /** `s.replace("```", "")` contains no "```" at all, and keeps a run of fewer
      than three leading backticks as it is. */
  lemma {:induction false} RemoveFences(s: string)
    decreases |s|
    ensures LeadingTicks(s) < 3 ==> LeadingTicks(Replace(s, FENCE, "")) == LeadingTicks(s)
    ensures !Contains(Replace(s, FENCE, ""), FENCE)
  {
    if |s| < |FENCE| {
      ShortHasNoFence(s);
    } else if s[..3] == FENCE {
      RemoveFences(s[3..]);
      LeadingTicksOfFence(s);
      ReplaceAtFence(s);
    } else {
      var rest := Replace(s[1..], FENCE, "");
      RemoveFences(s[1..]);
      ReplaceElsewhere(s);
      ConsTicks(s[0], rest);
      ConsTicks(s[0], s[1..]);
      assert [s[0]] + s[1..] == s;
      if s[0] == '`' {
        LeadingTicksNoFence(s);
        assert LeadingTicks(rest) == LeadingTicks(s[1..]);
      }
      ConsKeepsNoFence(s[0], rest);
    }
  }

  /** Removing every "```" leaves none. */
  lemma NoFenceAfterRemoval(s: string)
    ensures !Contains(Replace(s, FENCE, ""), FENCE)
  {
    RemoveFences(s);
  }
}
