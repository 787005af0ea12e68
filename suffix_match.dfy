/**
 * The subscription-item pattern of the push-only route,
 * `(?P<EVT>^\w+\.[a-zA-Z0-9*]+)(\<(?P<CND>.+)\>)?`, as a hand-written matcher
 * with RE2's leftmost-first preferences: `\w` is ASCII `[A-Za-z0-9_]` and
 * `.` is any character except a newline.
 */
module SuffixMatch {
  import opened Common
  import Text

  /** RE2's `\w`. */
  predicate IsWordChar(c: char)
  {
    ('a' <= c <= 'z') || ('A' <= c <= 'Z') || ('0' <= c <= '9') || c == '_'
  }

  /** The class `[a-zA-Z0-9*]` of the event name after the dot. */
  predicate IsTypeChar(c: char)
  {
    ('a' <= c <= 'z') || ('A' <= c <= 'Z') || ('0' <= c <= '9') || c == '*'
  }

  /** What `FindStringSubmatch` yields: the `EVT` and `CND` groups (an unmatched group is `""`). */
  datatype Item = Item(evt: string, cnd: string)

  /** The length of the longest run of characters satisfying `p` that starts at `i`. */
  function Run(s: string, i: nat, p: char -> bool): (n: nat)
    requires i <= |s|
    ensures i + n <= |s|
    ensures forall k :: i <= k < i + n ==> p(s[k])
    ensures i + n == |s| || !p(s[i + n])
    decreases |s| - i
  {
    if i == |s| || !p(s[i]) then 0 else 1 + Run(s, i + 1, p)
  }

  /** A run known character by character has that length. */
  lemma {:induction false} RunExact(s: string, i: nat, n: nat, p: char -> bool)
    requires i + n <= |s|
    requires forall k :: i <= k < i + n ==> p(s[k])
    requires i + n == |s| || !p(s[i + n])
    ensures Run(s, i, p) == n
    decreases n
  {
    if n > 0 {
      RunExact(s, i + 1, n - 1, p);
    }
  }

  /** The index of the first newline at or after `i`, or `|s|` when there is none. */
  function NewlineFrom(s: string, i: nat): (n: nat)
    requires i <= |s|
    ensures i <= n <= |s|
    ensures forall k :: i <= k < n ==> s[k] != '\n'
    ensures n == |s| || s[n] == '\n'
    decreases |s| - i
  {
    if i == |s| || s[i] == '\n' then i else NewlineFrom(s, i + 1)
  }

  /** Without a newline from `i` on, the search runs to the end. */
  lemma NoNewline(s: string, i: nat)
    requires i <= |s|
    requires forall k :: i <= k < |s| ==> s[k] != '\n'
    ensures NewlineFrom(s, i) == |s|
  {
  }

  /** The last index in `[lo, hi)` holding `>`, if any. */
  function LastClose(s: string, lo: nat, hi: nat): (r: Option<nat>)
    requires hi <= |s|
    ensures r.Some? ==> lo <= r.value < hi && s[r.value] == '>'
    ensures r.Some? ==> forall k :: r.value < k < hi ==> s[k] != '>'
    ensures r.None? ==> forall k :: lo <= k < hi ==> s[k] != '>'
    decreases hi
  {
    if hi <= lo then None
    else if s[hi - 1] == '>' then Some(hi - 1)
    else LastClose(s, lo, hi - 1)
  }

  /** The optional `<CND>` group right after the event type ending at `e`: `""` when it does not match. */
  function Condition(s: string, e: nat): string
    requires e <= |s|
  {
    if e < |s| && s[e] == '<' then
      match LastClose(s, e + 2, NewlineFrom(s, e + 1))
      case None => ""
      case Some(q) => s[e + 1..q]
    else ""
  }

  /** `FindStringSubmatch` on one item: `None` when the pattern does not match at the start. */
  function Match(s: string): Option<Item>
  {
    var w := Run(s, 0, IsWordChar);
    if w == 0 || w == |s| || s[w] != '.' then None
    else
      var t := Run(s, w + 1, IsTypeChar);
      if t == 0 then None
      else Some(Item(s[..w + 1 + t], Condition(s, w + 1 + t)))
  }

  // ---- The regular language, stated directly ----

  /** `t` is `\w+\.[a-zA-Z0-9*]+` with its dot at index `w`. */
  predicate EventShapeAt(t: string, w: nat)
  {
    0 < w < |t| - 1 && t[w] == '.' &&
    (forall i :: 0 <= i < w ==> IsWordChar(t[i])) &&
    (forall i :: w < i < |t| ==> IsTypeChar(t[i]))
  }

  /** `t` is in the language of the `EVT` group. */
  ghost predicate EventShape(t: string)
  {
    exists w :: EventShapeAt(t, w)
  }

  /** The group `\<(.+)\>` placed at `e` can end with the `>` at `q`. */
  predicate GroupAt(s: string, e: nat, q: int)
  {
    e + 2 <= q < |s| && s[e] == '<' && s[q] == '>' &&
    forall i :: e < i < q ==> s[i] != '\n'
  }

  /** The event-type group is a prefix of the item, in the language, and the longest such prefix. */
  lemma MatchEvent(s: string)
    requires Match(s).Some?
    ensures var evt := Match(s).value.evt;
      |evt| <= |s| && evt == s[..|evt|] && EventShape(evt) &&
      forall e :: |evt| < e <= |s| ==> !EventShape(s[..e])
  {
    var w := Run(s, 0, IsWordChar);
    var t := Run(s, w + 1, IsTypeChar);
    var evt := s[..w + 1 + t];
    assert EventShapeAt(evt, w);
    forall e | |evt| < e <= |s|
      ensures !EventShape(s[..e])
    {
      forall w' | EventShapeAt(s[..e], w') ensures false {
        ShapeWithin(s, e, w');
      }
    }
  }

  /**
   * A prefix in the `EVT` language has its dot right after the leading word
   * run and ends within the type-character run after that dot.
   */
  lemma ShapeWithin(s: string, e: nat, w': nat)
    requires e <= |s| && EventShapeAt(s[..e], w')
    ensures w' == Run(s, 0, IsWordChar)
    ensures 0 < e - w' - 1 <= Run(s, w' + 1, IsTypeChar)
  {
    var w := Run(s, 0, IsWordChar);
    assert w' == w;
  }

  /** No match means no prefix of the item is in the `EVT` language. */
  lemma MatchNone(s: string)
    requires Match(s).None?
    ensures forall e :: 0 <= e <= |s| ==> !EventShape(s[..e])
  {
    var w := Run(s, 0, IsWordChar);
    forall e | 0 <= e <= |s|
      ensures !EventShape(s[..e])
    {
      forall w' | EventShapeAt(s[..e], w') ensures false {
        ShapeWithin(s, e, w');
      }
    }
  }

  /**
   * The condition group: when it is not empty it is the text between the `<`
   * right after the event type and the last `>` the group can reach (greedy
   * `.+`); when it is empty no `>` could close the group.
   */
  lemma MatchCondition(s: string)
    requires Match(s).Some?
    ensures var m := Match(s).value; var e := |m.evt|;
      e <= |s| &&
      (m.cnd != "" ==> e + 1 + |m.cnd| < |s| && GroupAt(s, e, e + 1 + |m.cnd|) &&
                       m.cnd == s[e + 1..e + 1 + |m.cnd|] &&
                       forall q :: GroupAt(s, e, q) ==> q <= e + 1 + |m.cnd|) &&
      (m.cnd == "" ==> forall q :: !GroupAt(s, e, q))
  {
    var m := Match(s).value;
    var e := |m.evt|;
    if e < |s| && s[e] == '<' {
      var n := NewlineFrom(s, e + 1);
      match LastClose(s, e + 2, n)
      case None =>
        assert forall q :: !GroupAt(s, e, q);
      case Some(q0) =>
        assert forall q :: GroupAt(s, e, q) ==> q <= q0;
    }
  }

  /** The event type holds exactly one dot: everything after it up to the `<` is of `[a-zA-Z0-9*]`. */
  lemma {:induction false} EventHasOneDot(s: string)
    requires Match(s).Some?
    ensures Text.Count('.', Match(s).value.evt) == 1
  {
    var w := Run(s, 0, IsWordChar);
    var evt := Match(s).value.evt;
    assert evt == evt[..w] + evt[w..];
    CountAppend(evt[..w], evt[w..]);
    NoDot(evt[..w]);
    assert evt[w..] == ['.'] + evt[w + 1..];
    NoDot(evt[w + 1..]);
  }

  /** Count distributes over concatenation. */
  lemma {:induction false} CountAppend(a: string, b: string)
    ensures Text.Count('.', a + b) == Text.Count('.', a) + Text.Count('.', b)
  {
    if |a| == 0 {
      assert a + b == b;
    } else {
      assert (a + b)[1..] == a[1..] + b;
      CountAppend(a[1..], b);
    }
  }

  /** Text without a dot counts none. */
  lemma {:induction false} NoDot(a: string)
    requires forall i :: 0 <= i < |a| ==> a[i] != '.'
    ensures Text.Count('.', a) == 0
  {
    if |a| > 0 { NoDot(a[1..]); }
  }

  /** The match, given the two runs that make up the event type. */
  lemma MatchFromRuns(s: string, w: nat, t: nat)
    requires 0 < w < |s| && s[w] == '.' && Run(s, 0, IsWordChar) == w
    requires t > 0 && Run(s, w + 1, IsTypeChar) == t
    ensures Match(s) == Some(Item(s[..w + 1 + t], Condition(s, w + 1 + t)))
  {
  }

  /** The condition group, given where it closes. */
  lemma ConditionCloses(s: string, e: nat, q: nat)
    requires e < |s| && s[e] == '<'
    requires LastClose(s, e + 2, NewlineFrom(s, e + 1)) == Some(q)
    ensures Condition(s, e) == s[e + 1..q]
  {
  }

  /** The event type of `chat.*<room=1;x=2>` is made of the word run `chat` and the type run `*`. */
  lemma ExampleRuns()
    ensures Run("chat.*<room=1;x=2>", 0, IsWordChar) == 4
    ensures Run("chat.*<room=1;x=2>", 5, IsTypeChar) == 1
  {
    var s := "chat.*<room=1;x=2>";
    assert s[0] == 'c' && s[1] == 'h' && s[2] == 'a' && s[3] == 't' && s[4] == '.';
    RunExact(s, 0, 4, IsWordChar);
    assert s[5] == '*' && s[6] == '<';
    RunExact(s, 5, 1, IsTypeChar);
  }

  /** Its condition group runs from the `<` to the final `>`. */
  lemma ExampleGroupCondition()
    ensures Condition("chat.*<room=1;x=2>", 6) == "room=1;x=2"
  {
    var s := "chat.*<room=1;x=2>";
    NoNewline(s, 7);
    assert s[6] == '<' && s[|s| - 1] == '>';
    ConditionCloses(s, 6, |s| - 1);
    assert s[7..|s| - 1] == "room=1;x=2";
  }

  /** A condition group closes at the last `>`: `chat.*<room=1;x=2>` has event `chat.*` and condition `room=1;x=2`. */
  lemma ExampleGroup()
    ensures Match("chat.*<room=1;x=2>") == Some(Item("chat.*", "room=1;x=2"))
  {
    var s := "chat.*<room=1;x=2>";
    ExampleRuns();
    assert s[4] == '.';
    MatchFromRuns(s, 4, 1);
    ExampleGroupCondition();
    assert s[..6] == "chat.*";
  }
}
