/**
 * The push-only route's initial subscriptions: the `@TYPE<COND>,TYPE2<COND2>,…`
 * path suffix becomes an ordered list of subscribe requests, issued left to
 * right until the first one the handler refuses.
 */
module V3 {
  import opened Common
  import opened Text
  import SuffixMatch
  import QueryEscape

  /** A subscribe request: the event type and its condition map. */
  datatype Request = Request(eventType: string, condition: map<string, string>)

  /** One `;`-piece of a condition: a key and a value when it splits on `=` into exactly two parts. */
  function Pair(piece: string): (r: Option<(string, string)>)
    ensures r.Some? <==> |Split(piece, '=')| == 2
  {
    var kv := Split(piece, '=');
    if |kv| != 2 then None else Some((kv[0], kv[1]))
  }

  /** The condition map the pieces produce, applied left to right so that a later key overwrites. */
  function Conditions(pieces: seq<string>): map<string, string>
    decreases |pieces|
  {
    if |pieces| == 0 then map[]
    else
      var m := Conditions(pieces[..|pieces| - 1]);
      match Pair(pieces[|pieces| - 1])
      case None => m
      case Some(kv) => m[kv.0 := kv.1]
  }

  /** A piece contributes `key` when it is a well-formed pair with that key. */
  predicate HasKey(piece: string, key: string)
  {
    Pair(piece).Some? && Pair(piece).value.0 == key
  }

  /** A key is in the condition map exactly when some piece is a pair with that key. */
  lemma {:induction false} ConditionsHasKey(pieces: seq<string>, key: string)
    ensures key in Conditions(pieces) <==> exists i :: 0 <= i < |pieces| && HasKey(pieces[i], key)
    decreases |pieces|
  {
    if |pieces| > 0 {
      var n := |pieces| - 1;
      var init := pieces[..n];
      ConditionsHasKey(init, key);
      assert forall i :: 0 <= i < n ==> init[i] == pieces[i];
      if key in Conditions(pieces) && !HasKey(pieces[n], key) {
        var i :| 0 <= i < n && HasKey(init[i], key);
        assert HasKey(pieces[i], key);
      }
    }
  }

  /** A later piece with the same key overwrites: the value is the one of the last such piece. */
  lemma {:induction false} ConditionsLastWins(pieces: seq<string>, key: string)
    requires key in Conditions(pieces)
    ensures exists i :: 0 <= i < |pieces| && Pair(pieces[i]) == Some((key, Conditions(pieces)[key])) &&
                        forall j :: i < j < |pieces| ==> !HasKey(pieces[j], key)
    decreases |pieces|
  {
    var n := |pieces| - 1;
    var init := pieces[..n];
    if HasKey(pieces[n], key) {
      assert Pair(pieces[n]) == Some((key, Conditions(pieces)[key]));
    } else {
      assert key in Conditions(init) && Conditions(pieces)[key] == Conditions(init)[key];
      ConditionsLastWins(init, key);
      var i :| 0 <= i < n && Pair(init[i]) == Some((key, Conditions(init)[key])) &&
        forall j :: i < j < n ==> !HasKey(init[j], key);
      assert Pair(pieces[i]) == Some((key, Conditions(pieces)[key]));
      assert forall j :: i < j < n ==> init[j] == pieces[j];
    }
  }

  /** A `key=value` piece with no further `=` is read back as that pair. */
  lemma PairOfJoin(key: string, value: string)
    requires AbsentFrom('=', key) && AbsentFrom('=', value)
    ensures Pair(key + "=" + value) == Some((key, value))
  {
    assert Join([key, value], '=') == key + "=" + value;
    SplitJoin([key, value], '=');
  }

  /** A piece is dropped exactly when it does not hold exactly one `=`. */
  lemma PairDropped(piece: string)
    ensures Pair(piece).None? <==> Count('=', piece) != 1
  {
    SplitCount(piece, '=');
  }

  /** An absent condition group gives an empty condition map. */
  lemma AbsentConditionIsEmpty()
    ensures Conditions(Split("", ';')) == map[]
  {
    assert Split("", ';') == [""];
    assert Split("", '=') == [""];
    assert Conditions([""]) == Conditions([]);
  }

  /** Fills the condition map piece by piece, as the handler's inner loop does. */
  method BuildConditions(cnd: string) returns (cm: map<string, string>)
    ensures cm == Conditions(Split(cnd, ';'))
  {
    var conds := Split(cnd, ';');
    cm := map[];
    var i := 0;
    while i < |conds|
      invariant 0 <= i <= |conds|
      invariant cm == Conditions(conds[..i])
    {
      assert conds[..i + 1][..i] == conds[..i];
      var kv := Split(conds[i], '=');
      if |kv| == 2 {
        cm := cm[kv[0] := kv[1]];
      }
      i := i + 1;
    }
    assert conds[..i] == conds;
  }

  /** One comma-separated item: a request when the item pattern matches, `None` when the item is skipped. */
  function ParseItem(item: string): Option<Request>
  {
    match SuffixMatch.Match(item)
    case None => None
    case Some(m) => Some(Request(m.evt, Conditions(Split(m.cnd, ';'))))
  }

  /** The requests of the items, in item order, skipping items `parse` rejects. */
  function Collect(items: seq<string>, parse: string -> Option<Request>): seq<Request>
    decreases |items|
  {
    if |items| == 0 then []
    else
      var init := Collect(items[..|items| - 1], parse);
      match parse(items[|items| - 1])
      case None => init
      case Some(r) => init + [r]
  }

  /** The requests of the items of a suffix. */
  function Requests(items: seq<string>): seq<Request>
  {
    Collect(items, ParseItem)
  }

  /** The requests of consecutive item lists are consecutive. */
  lemma {:induction false} CollectAppend(a: seq<string>, b: seq<string>, parse: string -> Option<Request>)
    ensures Collect(a + b, parse) == Collect(a, parse) + Collect(b, parse)
    decreases |b|
  {
    if |b| == 0 {
      assert a + b == a;
    } else {
      var n := |b| - 1;
      assert (a + b)[..|a + b| - 1] == a + b[..n];
      assert (a + b)[|a + b| - 1] == b[n];
      CollectAppend(a, b[..n], parse);
    }
  }

  /** The requests of one more item. */
  lemma CollectStep(items: seq<string>, i: nat, parse: string -> Option<Request>)
    requires i < |items|
    ensures Collect(items[..i + 1], parse) ==
      Collect(items[..i], parse) + (if parse(items[i]).Some? then [parse(items[i]).value] else [])
  {
    assert items[..i + 1][..i] == items[..i];
  }

  /** A malformed item is skipped and the items around it keep their requests, in order. */
  lemma SkipMalformed(before: seq<string>, item: string, after: seq<string>)
    requires ParseItem(item).None?
    ensures Requests(before + [item] + after) == Requests(before) + Requests(after)
  {
    CollectAppend(before + [item], after, ParseItem);
    CollectAppend(before, [item], ParseItem);
    assert [item][..0] == [];
    assert Collect([item], ParseItem) == [];
  }

  /** Every issued event type is in the `EVT` language, the longest prefix of its item in it, with one dot. */
  lemma ParseItemEvent(item: string)
    requires ParseItem(item).Some?
    ensures var t := ParseItem(item).value.eventType;
      t == item[..|t|] && SuffixMatch.EventShape(t) && Count('.', t) == 1 &&
      forall e :: |t| < e <= |item| ==> !SuffixMatch.EventShape(item[..e])
  {
    SuffixMatch.MatchEvent(item);
    SuffixMatch.EventHasOneDot(item);
  }

  /** An item is skipped exactly when no prefix of it has the `EVT` shape. */
  lemma ParseItemSkips(item: string)
    ensures ParseItem(item).None? <==> forall e :: 0 <= e <= |item| ==> !SuffixMatch.EventShape(item[..e])
  {
    if ParseItem(item).None? {
      SuffixMatch.MatchNone(item);
    } else {
      SuffixMatch.MatchEvent(item);
    }
  }

  /** Text after the event type that is not a `<…>` group is ignored: `a.b.c` subscribes to `a.b`. */
  lemma ExampleTrailingText()
    ensures ParseItem("a.b.c") == Some(Request("a.b", map[]))
  {
    var s := "a.b.c";
    SuffixMatch.RunExact(s, 0, 1, SuffixMatch.IsWordChar);
    SuffixMatch.RunExact(s, 2, 1, SuffixMatch.IsTypeChar);
    assert s[..3] == "a.b";
    AbsentConditionIsEmpty();
  }

  /** A condition group is split on `;` and `=` into a map. */
  lemma ExampleCondition()
    ensures ParseItem("chat.*<room=1;x=2>") == Some(Request("chat.*", map["room" := "1", "x" := "2"]))
  {
    SuffixMatch.ExampleGroup();
    ExampleConditionMap();
  }

  /** The group `room=1;x=2` gives both keys. */
  lemma ExampleConditionMap()
    ensures Conditions(Split("room=1;x=2", ';')) == map["room" := "1", "x" := "2"]
  {
    ConditionsOfTwo("room", "1", "x", "2");
    assert "room" + "=" + "1" + ";" + "x" + "=" + "2" == "room=1;x=2";
  }

  /** Two well-formed pairs joined by `;` give a map of both, the second written last. */
  lemma ConditionsOfTwo(k1: string, v1: string, k2: string, v2: string)
    requires AbsentFrom('=', k1) && AbsentFrom('=', v1) && AbsentFrom('=', k2) && AbsentFrom('=', v2)
    requires AbsentFrom(';', k1 + "=" + v1) && AbsentFrom(';', k2 + "=" + v2)
    ensures Conditions(Split(k1 + "=" + v1 + ";" + k2 + "=" + v2, ';')) == map[k1 := v1][k2 := v2]
  {
    var p1, p2 := k1 + "=" + v1, k2 + "=" + v2;
    SplitTwo(p1, p2, ';');
    assert k1 + "=" + v1 + ";" + k2 + "=" + v2 == p1 + ";" + p2;
    PairOfJoin(k1, v1);
    PairOfJoin(k2, v2);
    ConditionsOfPairs(p1, p2);
  }

  /** Splitting two separator-free pieces joined by the separator gives them back. */
  lemma SplitTwo(p1: string, p2: string, sep: char)
    requires AbsentFrom(sep, p1) && AbsentFrom(sep, p2)
    ensures Split(p1 + [sep] + p2, sep) == [p1, p2]
  {
    assert Join([p1, p2], sep) == p1 + [sep] + p2;
    SplitJoin([p1, p2], sep);
  }

  /** The map of two well-formed pieces. */
  lemma ConditionsOfPairs(p1: string, p2: string)
    requires Pair(p1).Some? && Pair(p2).Some?
    ensures Conditions([p1, p2]) == map[Pair(p1).value.0 := Pair(p1).value.1][Pair(p2).value.0 := Pair(p2).value.1]
  {
    var kv1, kv2 := Pair(p1).value, Pair(p2).value;
    calc {
      Conditions([p1, p2]);
      { assert [p1, p2][..1] == [p1]; }
      Conditions([p1])[kv2.0 := kv2.1];
      { assert [p1][..0] == []; }
      Conditions([])[kv1.0 := kv1.1][kv2.0 := kv2.1];
    }
  }

  /** An item with an empty word part, an empty name part or a non-word character before the dot is skipped. */
  lemma ExampleSkipped()
    ensures ParseItem(".b") == None && ParseItem("a.") == None && ParseItem("a-b.c") == None
  {
    SuffixMatch.RunExact(".b", 0, 0, SuffixMatch.IsWordChar);
    SuffixMatch.RunExact("a.", 0, 1, SuffixMatch.IsWordChar);
    SuffixMatch.RunExact("a.", 2, 0, SuffixMatch.IsTypeChar);
    SuffixMatch.RunExact("a-b.c", 0, 1, SuffixMatch.IsWordChar);
  }

  /**
   * The requests a connection will try to make: none when the connection was
   * cancelled before it became ready, when the route carried no suffix, or
   * when the unescaped suffix (empty on an unescape error) does not start
   * with `@`; otherwise those of the comma-separated items after the `@`.
   */
  function Plan(cancelled: bool, sub: Option<string>): (r: seq<Request>)
    ensures cancelled || sub.None? ==> r == []
    ensures sub.Some? && QueryEscape.Unescape(sub.value).None? ==> r == []
    ensures sub.Some? && !StartsWithAt(QueryEscape.UnescapeOrEmpty(sub.value)) ==> r == []
  {
    if cancelled || sub.None? then []
    else
      var s := QueryEscape.UnescapeOrEmpty(sub.value);
      if !StartsWithAt(s) then [] else Requests(Split(s[1..], ','))
  }

  predicate StartsWithAt(s: string)
  {
    |s| > 0 && s[0] == '@'
  }

  /** A suffix written as `@` and comma-free items yields exactly those items' requests, in order. */
  lemma {:induction false} PlanOfItems(items: seq<string>)
    requires |items| >= 1
    requires forall i :: 0 <= i < |items| ==> AbsentFrom(',', items[i])
    requires forall i :: 0 <= i < |items| ==> AbsentFrom('%', items[i]) && AbsentFrom('+', items[i])
    ensures Plan(false, Some("@" + Join(items, ','))) == Requests(items)
  {
    var s := "@" + Join(items, ',');
    JoinAbsent(items, ',', '%');
    JoinAbsent(items, ',', '+');
    assert forall i :: 1 <= i < |s| ==> s[i] == Join(items, ',')[i - 1];
    QueryEscape.UnescapePlain(s);
    assert s[1..] == Join(items, ',');
    SplitJoin(items, ',');
  }

  /** Joining with a separator other than `c` introduces no `c`. */
  lemma {:induction false} JoinAbsent(items: seq<string>, sep: char, c: char)
    requires sep != c
    requires forall i :: 0 <= i < |items| ==> AbsentFrom(c, items[i])
    ensures AbsentFrom(c, Join(items, sep))
    decreases |items|
  {
    if |items| > 1 {
      JoinAbsent(items[1..], sep, c);
      var t := Join(items[1..], sep);
      var s := items[0] + [sep] + t;
      assert Join(items, sep) == s;
      assert forall i :: 0 <= i < |items[0]| ==> s[i] == items[0][i];
      assert forall i :: |items[0]| < i < |s| ==> s[i] == t[i - |items[0]| - 1];
    }
  }

  /**
   * The handler's answer to each subscribe request, given those issued
   * before it: `true` when it returned no error and `ok`.
   */
  type Acceptance = (seq<Request>, Request) -> bool

  /** The requests issued: in order, up to and including the first one refused. */
  function Issued(reqs: seq<Request>, accept: Acceptance, history: seq<Request>): seq<Request>
    decreases |reqs|
  {
    if |reqs| == 0 then []
    else if accept(history, reqs[0]) then [reqs[0]] + Issued(reqs[1..], accept, history + [reqs[0]])
    else [reqs[0]]
  }

  /** Every request in `done` was accepted, each given the ones before it. */
  predicate AllAccepted(done: seq<Request>, accept: Acceptance, history: seq<Request>)
    decreases |done|
  {
    |done| == 0 || (accept(history, done[0]) && AllAccepted(done[1..], accept, history + [done[0]]))
  }

  /** Accepting one more request keeps everything issued accepted. */
  lemma {:induction false} AcceptOne(done: seq<Request>, req: Request, accept: Acceptance, history: seq<Request>)
    requires AllAccepted(done, accept, history) && accept(history + done, req)
    ensures AllAccepted(done + [req], accept, history)
    decreases |done|
  {
    if |done| == 0 {
      assert done + [req] == [req];
      assert history + done == history;
      assert [req][1..] == [];
    } else {
      var h := history + [done[0]];
      assert h + done[1..] == history + done;
      AcceptOne(done[1..], req, accept, h);
      assert (done + [req])[1..] == done[1..] + [req];
    }
  }

  /**
   * Issuing stops at the first refusal: what is issued is a prefix of the
   * plan, all issued requests but the last were accepted, and when the plan
   * was cut short the last issued one was refused.
   */
  lemma {:induction false} IssuedStopsAtFirstRefusal(reqs: seq<Request>, accept: Acceptance, history: seq<Request>)
    ensures var out := Issued(reqs, accept, history);
      |out| <= |reqs| && out == reqs[..|out|] && (|reqs| > 0 ==> |out| > 0)
    ensures var out := Issued(reqs, accept, history);
      |out| > 0 ==> AllAccepted(out[..|out| - 1], accept, history)
    ensures var out := Issued(reqs, accept, history);
      |out| < |reqs| ==> |out| > 0 && !accept(history + out[..|out| - 1], out[|out| - 1])
    decreases |reqs|
  {
    if |reqs| > 0 {
      var out := Issued(reqs, accept, history);
      if accept(history, reqs[0]) {
        var h := history + [reqs[0]];
        var tail := Issued(reqs[1..], accept, h);
        IssuedStopsAtFirstRefusal(reqs[1..], accept, h);
        assert out == [reqs[0]] + tail;
        if |tail| > 0 {
          var init := out[..|out| - 1];
          assert init == [reqs[0]] + tail[..|tail| - 1];
          assert init[1..] == tail[..|tail| - 1];
          if |out| < |reqs| {
            assert history + init == h + tail[..|tail| - 1];
          }
        }
      } else {
        assert out[..0] == [];
        assert history + out[..0] == history;
      }
    }
  }

  /** Requests accepted so far leave the rest to be issued after them. */
  lemma {:induction false} IssuedAfterAccepted(done: seq<Request>, rest: seq<Request>, accept: Acceptance, history: seq<Request>)
    requires AllAccepted(done, accept, history)
    ensures Issued(done + rest, accept, history) == done + Issued(rest, accept, history + done)
    decreases |done|
  {
    if |done| == 0 {
      assert done + rest == rest;
      assert history + done == history;
    } else {
      var h := history + [done[0]];
      var all := done + rest;
      assert all[0] == done[0];
      assert all[1..] == done[1..] + rest;
      IssuedAfterAccepted(done[1..], rest, accept, h);
      assert h + done[1..] == history + done;
      calc {
        Issued(all, accept, history);
        [done[0]] + Issued(done[1..] + rest, accept, h);
        [done[0]] + (done[1..] + Issued(rest, accept, history + done));
        { assert done == [done[0]] + done[1..]; }
        done + Issued(rest, accept, history + done);
      }
    }
  }

  /**
   * The initial-subscription task of a push-only connection: waits for
   * readiness, then (unless the connection was already cancelled) unescapes
   * the route's `sub` value, splits it after the `@` on `,` and subscribes
   * item by item, skipping items that do not match and returning at the
   * first refusal. `issued` lists the subscribe calls made, in order.
   */
  method SubscribeFromSuffix(cancelled: bool, sub: Option<string>, accept: Acceptance)
    returns (issued: seq<Request>)
    ensures issued == Issued(Plan(cancelled, sub), accept, [])
  {
    issued := [];
    if cancelled || sub.None? {
      return;
    }
    var s := QueryEscape.UnescapeOrEmpty(sub.value);
    if s == "" || s[0] != '@' {
      return;
    }
    issued := IssueItems(Split(s[1..], ','), accept);
  }

  /** The loop over the comma-separated items: subscribe each parsed item, stop at the first refusal. */
  method IssueItems(subStrs: seq<string>, accept: Acceptance) returns (issued: seq<Request>)
    ensures issued == Issued(Requests(subStrs), accept, [])
  {
    issued := [];
    var i := 0;
    while i < |subStrs|
      invariant 0 <= i <= |subStrs|
      invariant issued == Requests(subStrs[..i])
      invariant AllAccepted(issued, accept, [])
    {
      CollectStep(subStrs, i, ParseItem);
      var m := SuffixMatch.Match(subStrs[i]);
      if m.None? {
        i := i + 1;
        continue;
      }
      var cm := BuildConditions(m.value.cnd);
      var req := Request(m.value.evt, cm);
      assert ParseItem(subStrs[i]) == Some(req);
      var ok := accept(issued, req);
      if !ok {
        RefusalEnds(subStrs, i, issued, req, accept);
        issued := issued + [req];
        return;
      }
      assert [] + issued == issued;
      AcceptOne(issued, req, accept, []);
      issued := issued + [req];
      i := i + 1;
    }
    AllIssued(subStrs, issued, accept);
  }

  /** When every request was accepted, all of them were issued. */
  lemma AllIssued(items: seq<string>, done: seq<Request>, accept: Acceptance)
    requires done == Requests(items[..|items|]) && AllAccepted(done, accept, [])
    ensures done == Issued(Requests(items), accept, [])
  {
    assert items[..|items|] == items;
    IssuedAfterAccepted(done, [], accept, []);
    assert done + [] == done;
  }

  /** A refusal of item `i`'s request ends the issued list right there. */
  lemma RefusalEnds(items: seq<string>, i: nat, done: seq<Request>, req: Request, accept: Acceptance)
    requires i < |items| && done == Requests(items[..i]) && AllAccepted(done, accept, [])
    requires ParseItem(items[i]) == Some(req) && !accept(done, req)
    ensures Issued(Requests(items), accept, []) == done + [req]
  {
    var rest := Requests(items[i + 1..]);
    RequestsSplitAt(items, i, req);
    IssuedAfterAccepted(done, [req] + rest, accept, []);
    assert [] + done == done;
    assert ([req] + rest)[0] == req;
  }

  /** The requests around the item at `i`. */
  lemma RequestsSplitAt(items: seq<string>, i: nat, req: Request)
    requires i < |items| && ParseItem(items[i]) == Some(req)
    ensures Requests(items) == Requests(items[..i]) + ([req] + Requests(items[i + 1..]))
  {
    var rest := items[i + 1..];
    assert items == items[..i + 1] + rest;
    CollectAppend(items[..i + 1], rest, ParseItem);
    CollectStep(items, i, ParseItem);
  }
}
