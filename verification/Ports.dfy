/** The list of serial ports: built by overwriting duplicates, then filtered and named in place. */
module Ports {

  datatype SerInfo = SerInfo(devPath: string, portName: string, friendlyName: string, usb: bool, portDesc: string)

  // ---- Names ----

  predicate OccursAt(s: string, p: string, i: nat) {
    i + |p| <= |s| && s[i..i + |p|] == p
  }

  /** The first occurrence at or after `from`, or -1. */
  function FindFrom(s: string, p: string, from: nat): (r: int)
    ensures r >= 0 ==> r >= from && OccursAt(s, p, r) && forall i: nat :: from <= i < r ==> !OccursAt(s, p, i)
    ensures r < 0 ==> r == -1 && forall i: nat :: from <= i ==> !OccursAt(s, p, i)
    decreases |s| - from
  {
    if from > |s| then -1
    else if OccursAt(s, p, from) then from
    else FindFrom(s, p, from + 1)
  }

  function Find(s: string, p: string): (r: int)
    ensures r >= 0 ==> OccursAt(s, p, r) && forall i: nat :: i < r ==> !OccursAt(s, p, i)
    ensures r < 0 ==> r == -1 && forall i: nat :: !OccursAt(s, p, i)
  {
    FindFrom(s, p, 0)
  }

  /** The friendly name without a trailing parenthesised part. */
  function Description(name: string): string {
    var start, end := Find(name, " ("), Find(name, ")");
    if start > 0 && end == |name| - 1 then name[..start] else name
  }

  function Named(p: SerInfo): SerInfo {
    var name := if p.friendlyName == "" then p.portName else p.friendlyName;
    p.(friendlyName := name, portDesc := if p.portDesc == "" then Description(name) else p.portDesc)
  }

  lemma OccursOne(s: string, c: char, i: nat)
    ensures OccursAt(s, [c], i) <==> i < |s| && s[i] == c
  {
    if i < |s| {
      assert s[i..i + 1] == [s[i]];
    }
  }

  lemma OccursTwo(s: string, c: char, d: char, i: nat)
    ensures OccursAt(s, [c, d], i) <==> i + 1 < |s| && s[i] == c && s[i + 1] == d
  {
    if i + 1 < |s| {
      assert s[i..i + 2] == [s[i], s[i + 1]];
    }
  }

  /** The first ")" of "X (Y)" is the last character exactly when neither part has one. */
  lemma FirstClosing(x: string, y: string)
    ensures var name := x + " (" + y + ")";
            Find(name, ")") == |name| - 1 <==> ')' !in x && ')' !in y
  {
    var name := x + " (" + y + ")";
    forall i: nat
      ensures OccursAt(name, ")", i) <==> i < |name| && name[i] == ')'
    {
      OccursOne(name, ')', i);
    }
    var n := |name| - 1;
    assert name[n] == ')' && OccursAt(name, ")", n);
    assert forall i :: 0 <= i < |x| ==> name[i] == x[i];
    assert forall i :: 0 <= i < |y| ==> name[|x| + 2 + i] == y[i];
    if ')' !in x && ')' !in y {
      forall i: nat | i < n
        ensures name[i] != ')'
      {
        assert name[i] ==
               if i < |x| then x[i] else if i == |x| then ' ' else if i == |x| + 1 then '(' else y[i - |x| - 2];
      }
    }
  }

  /** The first " (" of "X (Y)" is the one behind X exactly when X has none. */
  lemma FirstOpening(x: string, y: string)
    ensures Find(x + " (" + y + ")", " (") == |x| <==> Find(x, " (") == -1
  {
    var name := x + " (" + y + ")";
    assert name[|x|] == ' ' && name[|x| + 1] == '(';
    assert forall i :: 0 <= i < |x| ==> name[i] == x[i];
    forall i: nat
      ensures i < |x| ==> (OccursAt(name, " (", i) <==> OccursAt(x, " (", i))
    {
      OccursTwo(name, ' ', '(', i);
      OccursTwo(x, ' ', '(', i);
    }
    OccursTwo(name, ' ', '(', |x|);
    OccursTwo(x, ' ', '(', |x|);
    var f := Find(x, " (");
    if f >= 0 {
      assert OccursAt(x, " (", f);
    }
  }

  /** A blank with an opening parenthesis behind it. */
  ghost predicate Opens(x: string) {
    exists i :: 0 <= i < |x| - 1 && x[i] == ' ' && x[i + 1] == '('
  }

  lemma OpensIff(x: string)
    ensures Opens(x) <==> Find(x, " (") != -1
  {
    if i :| 0 <= i < |x| - 1 && x[i] == ' ' && x[i + 1] == '(' {
      OccursTwo(x, ' ', '(', i);
    }
    var f := Find(x, " (");
    if f >= 0 {
      OccursTwo(x, ' ', '(', f);
      assert x[f] == ' ' && x[f + 1] == '(';
    }
  }

  /**
   * The promise is that "X (Y)" becomes "X"; it is kept exactly when X is not empty and has no " (",
   * and neither part has a ")".
   */
  lemma DescriptionStripsIff(x: string, y: string)
    ensures Description(x + " (" + y + ")") == x <==> x != "" && ')' !in x && ')' !in y && !Opens(x)
  {
    OpensIff(x);
    FirstClosing(x, y);
    FirstOpening(x, y);
  }

  /**
   * In all other cases the name is its own description: it is shortened exactly when it is of the form
   * "X (Y)" and meets that condition, so never without a " (" or when it does not end in ")".
   */
  lemma DescriptionKeepsIff(name: string)
    ensures Description(name) != name <==>
            exists x, y :: name == x + " (" + y + ")" && x != "" && ')' !in x && ')' !in y && !Opens(x)
    ensures !Opens(name) ==> Description(name) == name
    ensures name == "" || name[|name| - 1] != ')' ==> Description(name) == name
  {
    var start, end := Find(name, " ("), Find(name, ")");
    OpensIff(name);
    if end >= 0 {
      OccursOne(name, ')', end);
    }
    if start > 0 && end == |name| - 1 {
      OccursTwo(name, ' ', '(', start);
      var x, y := name[..start], name[start + 2..end];
      assert name == x + " (" + y + ")";
      assert Description(name) == x && |x| < |name|;
      DescriptionStripsIff(x, y);
    }
    if x, y :| name == x + " (" + y + ")" && x != "" && ')' !in x && ')' !in y && !Opens(x) {
      DescriptionStripsIff(x, y);
      assert Description(name) == x && |x| < |name|;
    }
  }

  /** A second pair of parentheses defeats it. */
  lemma DescriptionCanFail()
    ensures Description("A (B) (C)") == "A (B) (C)"
  {
    var name := "A (B) (C)";
    assert name == "A" + " (" + "B) (C" + ")";
    FirstClosing("A", "B) (C");
    assert "B) (C"[1] == ')';
  }

  // ---- Filtering ----

  /**
   * `q` is the finished form of `p`: without a friendly name it has the port name for one, without a
   * description it has that of its friendly name, and everything else is as it was.
   */
  ghost predicate FinishedForm(p: SerInfo, q: SerInfo) {
    && q.devPath == p.devPath && q.portName == p.portName && q.usb == p.usb
    && q.friendlyName == (if p.friendlyName != "" then p.friendlyName else p.portName)
    && q.portDesc == (if p.portDesc != "" then p.portDesc else Description(q.friendlyName))
  }

  /** Naming gives this form, and naming again changes nothing. */
  lemma NamedTwice(p: SerInfo)
    ensures FinishedForm(p, Named(p))
    ensures Named(Named(p)) == Named(p)
  {
  }

  /** The ports that stay, in order and named. */
  function Finished(ps: seq<SerInfo>, ignoreBusy: bool, free: set<string>): seq<SerInfo> {
    if ps == [] then []
    else
      var p := ps[|ps| - 1];
      Finished(ps[..|ps| - 1], ignoreBusy, free) + if ignoreBusy && p.devPath !in free then [] else [Named(p)]
  }

  function Paths(ps: seq<SerInfo>): (r: seq<string>)
    ensures |r| == |ps|
    ensures forall i :: 0 <= i < |r| ==> r[i] == ps[i].devPath
  {
    seq(|ps|, i requires 0 <= i < |ps| => ps[i].devPath)
  }

  lemma {:induction false} FinishedMembers(ps: seq<SerInfo>, ignoreBusy: bool, free: set<string>, q: SerInfo)
    ensures q in Finished(ps, ignoreBusy, free) <==>
            exists i :: 0 <= i < |ps| && (ignoreBusy ==> ps[i].devPath in free) && FinishedForm(ps[i], q)
  {
    if ps != [] {
      var n := |ps| - 1;
      FinishedMembers(ps[..n], ignoreBusy, free, q);
      if i :| 0 <= i < n && (ignoreBusy ==> ps[i].devPath in free) && FinishedForm(ps[i], q) {
        assert ps[..n][i] == ps[i];
      }
    }
  }

  /** Going over the finished list again, with the same ports busy, changes nothing. */
  lemma {:induction false} FinishedTwice(ps: seq<SerInfo>, ignoreBusy: bool, free: set<string>)
    ensures var done := Finished(ps, ignoreBusy, free); Finished(done, ignoreBusy, free) == done
  {
    if ps != [] {
      var n := |ps| - 1;
      FinishedTwice(ps[..n], ignoreBusy, free);
      var before, done := Finished(ps[..n], ignoreBusy, free), Finished(ps, ignoreBusy, free);
      if done != before {
        assert done[..|done| - 1] == before && done[|done| - 1] == Named(ps[n]);
        NamedTwice(ps[n]);
      }
    }
  }

  /**
   * The ports `qs` are the finished forms of those ports of `ps` that can be opened: the `j`th comes
   * from the port at `from[j]`, and `from` goes through their places in order and leaves none out.
   */
  ghost predicate TracedTo(qs: seq<SerInfo>, ps: seq<SerInfo>, from: seq<nat>, ignoreBusy: bool, free: set<string>) {
    && |from| == |qs|
    && (forall j :: 0 <= j < |from| ==> from[j] < |ps| && FinishedForm(ps[from[j]], qs[j]))
    && (forall i, j :: 0 <= i < j < |from| ==> from[i] < from[j])
    && (forall i: nat :: i in from <==> i < |ps| && (ignoreBusy ==> ps[i].devPath in free))
  }

  /** Every port of the finished list is traced to an original one. */
  lemma {:induction false} FinishedTraced(ps: seq<SerInfo>, ignoreBusy: bool, free: set<string>)
    returns (from: seq<nat>)
    ensures TracedTo(Finished(ps, ignoreBusy, free), ps, from, ignoreBusy, free)
  {
    if ps == [] {
      from := [];
    } else {
      var n := |ps| - 1;
      from := FinishedTraced(ps[..n], ignoreBusy, free);
      assert ps == ps[..n] + [ps[n]];
      TracedSnoc(Finished(ps[..n], ignoreBusy, free), ps[..n], from, ps[n], ignoreBusy, free);
      if ignoreBusy ==> ps[n].devPath in free {
        from := from + [n];
      }
    }
  }

  /** One more original port, which can be opened or not. */
  lemma TracedSnoc(
    qs: seq<SerInfo>, ps: seq<SerInfo>, from: seq<nat>, p: SerInfo, ignoreBusy: bool, free: set<string>)
    requires TracedTo(qs, ps, from, ignoreBusy, free)
    ensures ignoreBusy && p.devPath !in free ==> TracedTo(qs, ps + [p], from, ignoreBusy, free)
    ensures (ignoreBusy ==> p.devPath in free) ==>
              TracedTo(qs + [Named(p)], ps + [p], from + [|ps|], ignoreBusy, free)
  {
    NamedTwice(p);
  }

  // ---- Duplicates ----

  /** The position of the first port with the name, or the length of the list. */
  function IndexOf(ps: seq<SerInfo>, name: string): (k: nat)
    ensures k <= |ps|
    ensures k < |ps| ==> ps[k].portName == name
    ensures forall i :: 0 <= i < k ==> ps[i].portName != name
  {
    if ps == [] || ps[0].portName == name then 0 else 1 + IndexOf(ps[1..], name)
  }

  function Upsert(ps: seq<SerInfo>, p: SerInfo): seq<SerInfo> {
    var k := IndexOf(ps, p.portName);
    if k < |ps| then ps[k := p] else ps + [p]
  }

  /** The list `ps` after discovering the ports `found`. */
  function Discover(ps: seq<SerInfo>, found: seq<SerInfo>): seq<SerInfo> {
    if found == [] then ps else Upsert(Discover(ps, found[..|found| - 1]), found[|found| - 1])
  }

  /** The list starting from nothing. */
  function Collected(found: seq<SerInfo>): seq<SerInfo> {
    Discover([], found)
  }

  function Concat(keys: seq<seq<SerInfo>>): seq<SerInfo> {
    if keys == [] then [] else Concat(keys[..|keys| - 1]) + keys[|keys| - 1]
  }

  /** What the keys hold, in their order. */
  lemma {:induction false} ConcatAppend(a: seq<seq<SerInfo>>, b: seq<seq<SerInfo>>)
    ensures Concat(a + b) == Concat(a) + Concat(b)
    ensures forall found :: Concat([found]) == found
  {
    forall found
      ensures Concat([found]) == found
    {
      assert [found][..0] == [] && Concat([]) == [];
    }
    if b == [] {
      assert a + b == a;
    } else {
      assert (a + b)[..|a + b| - 1] == a + b[..|b| - 1];
      ConcatAppend(a, b[..|b| - 1]);
    }
  }

  /** Searching one key after another amounts to one search over all that they hold. */
  lemma {:induction false} DiscoverAppend(ps: seq<SerInfo>, a: seq<SerInfo>, b: seq<SerInfo>)
    ensures Discover(ps, a + b) == Discover(Discover(ps, a), b)
  {
    if b == [] {
      assert a + b == a;
    } else {
      assert (a + b)[..|a + b| - 1] == a + b[..|b| - 1];
      DiscoverAppend(ps, a, b[..|b| - 1]);
    }
  }

  /** The position of the last port with the name, or -1. */
  function LastIndexOf(ps: seq<SerInfo>, name: string): (k: int)
    ensures -1 <= k < |ps|
    ensures k >= 0 ==> ps[k].portName == name
    ensures forall i :: k < i < |ps| ==> ps[i].portName != name
  {
    if ps == [] then -1
    else if ps[|ps| - 1].portName == name then |ps| - 1
    else LastIndexOf(ps[..|ps| - 1], name)
  }

  ghost predicate NamesDistinct(ps: seq<SerInfo>) {
    forall i, j :: 0 <= i < j < |ps| ==> ps[i].portName != ps[j].portName
  }

  /** Each port is the last one found with its name. */
  ghost predicate LatestKept(ps: seq<SerInfo>, found: seq<SerInfo>) {
    forall i :: 0 <= i < |ps| ==>
      LastIndexOf(found, ps[i].portName) >= 0 && ps[i] == found[LastIndexOf(found, ps[i].portName)]
  }

  /** The names are in the order in which they were first found. */
  ghost predicate FirstFoundFirst(ps: seq<SerInfo>, found: seq<SerInfo>) {
    forall i, j :: 0 <= i < j < |ps| ==> IndexOf(found, ps[i].portName) < IndexOf(found, ps[j].portName)
  }

  ghost predicate NoneMissing(ps: seq<SerInfo>, found: seq<SerInfo>) {
    forall j :: 0 <= j < |found| ==> IndexOf(ps, found[j].portName) < |ps|
  }

  ghost predicate Reflects(ps: seq<SerInfo>, found: seq<SerInfo>) {
    NamesDistinct(ps) && LatestKept(ps, found) && FirstFoundFirst(ps, found) && NoneMissing(ps, found)
  }

  lemma IndexOfUnique(ps: seq<SerInfo>, name: string, k: nat)
    requires k <= |ps| && (k < |ps| ==> ps[k].portName == name)
    requires forall i :: 0 <= i < k ==> ps[i].portName != name
    ensures IndexOf(ps, name) == k
  {
  }

  lemma IndexOfSnoc(ps: seq<SerInfo>, p: SerInfo, name: string)
    ensures IndexOf(ps + [p], name) ==
            if IndexOf(ps, name) < |ps| then IndexOf(ps, name) else if p.portName == name then |ps| else |ps| + 1
    ensures LastIndexOf(ps + [p], name) == if p.portName == name then |ps| else LastIndexOf(ps, name)
  {
    var k := IndexOf(ps, name);
    assert (ps + [p])[..|ps|] == ps;
    IndexOfUnique(ps + [p], name, if k < |ps| then k else if p.portName == name then |ps| else |ps| + 1);
  }

  lemma DistinctUpsert(ps: seq<SerInfo>, p: SerInfo)
    requires NamesDistinct(ps)
    ensures NamesDistinct(Upsert(ps, p))
  {
  }

  lemma LatestUpsert(ps: seq<SerInfo>, found: seq<SerInfo>, p: SerInfo)
    requires NamesDistinct(ps) && LatestKept(ps, found)
    ensures LatestKept(Upsert(ps, p), found + [p])
  {
    var qs, more := Upsert(ps, p), found + [p];
    forall i | 0 <= i < |qs|
      ensures LastIndexOf(more, qs[i].portName) >= 0 && qs[i] == more[LastIndexOf(more, qs[i].portName)]
    {
      IndexOfSnoc(found, p, qs[i].portName);
    }
  }

  /** A port already collected was found first where it was before. */
  lemma FirstIndexKept(ps: seq<SerInfo>, found: seq<SerInfo>, p: SerInfo, i: nat)
    requires LatestKept(ps, found) && i < |ps|
    ensures IndexOf(found + [p], ps[i].portName) == IndexOf(found, ps[i].portName) < |found|
  {
    IndexOfSnoc(found, p, ps[i].portName);
  }

  lemma OrderUpsert(ps: seq<SerInfo>, found: seq<SerInfo>, p: SerInfo)
    requires LatestKept(ps, found) && FirstFoundFirst(ps, found) && NoneMissing(ps, found)
    ensures FirstFoundFirst(Upsert(ps, p), found + [p])
  {
    var qs, more := Upsert(ps, p), found + [p];
    forall i, j | 0 <= i < j < |qs|
      ensures IndexOf(more, qs[i].portName) < IndexOf(more, qs[j].portName)
    {
      FirstIndexKept(ps, found, p, i);
      if j < |ps| {
        FirstIndexKept(ps, found, p, j);
      } else {
        NewIndex(ps, found, p);
      }
    }
  }

  /** A port with a new name was not found before. */
  lemma NewIndex(ps: seq<SerInfo>, found: seq<SerInfo>, p: SerInfo)
    requires NoneMissing(ps, found) && IndexOf(ps, p.portName) == |ps|
    ensures IndexOf(found + [p], p.portName) == |found|
  {
    IndexOfSnoc(found, p, p.portName);
  }

  lemma PresentUpsert(ps: seq<SerInfo>, found: seq<SerInfo>, p: SerInfo)
    requires NoneMissing(ps, found)
    ensures NoneMissing(Upsert(ps, p), found + [p])
  {
    var qs, more, k := Upsert(ps, p), found + [p], IndexOf(ps, p.portName);
    forall j | 0 <= j < |more|
      ensures IndexOf(qs, more[j].portName) < |qs|
    {
      var name := more[j].portName;
      if name == p.portName {
        assert qs[k].portName == name;
      } else {
        var m := IndexOf(ps, name);
        assert m < |ps| && qs[m].portName == name;
      }
    }
  }

  lemma ReflectsUpsert(ps: seq<SerInfo>, found: seq<SerInfo>, p: SerInfo)
    requires Reflects(ps, found)
    ensures Reflects(Upsert(ps, p), found + [p])
  {
    DistinctUpsert(ps, p);
    LatestUpsert(ps, found, p);
    OrderUpsert(ps, found, p);
    PresentUpsert(ps, found, p);
  }

  /** After any sequence of discoveries. */
  lemma {:induction false} CollectedReflects(found: seq<SerInfo>)
    ensures Reflects(Collected(found), found)
  {
    if found != [] {
      var n := |found| - 1;
      CollectedReflects(found[..n]);
      var before, p := found[..n], found[n];
      assert before + [p] == found;
      ReflectsUpsert(Collected(before), before, p);
    }
  }

  // ---- In place ----

  /** Removing or naming the port behind the finished ones, seen from the list that remains to be visited. */
  lemma Around(done: seq<SerInfo>, ports: seq<SerInfo>, k: nat, q: SerInfo)
    requires k < |ports|
    ensures var s, n := done + ports[k..], |done|;
            && s[n] == ports[k]
            && s[..n] + s[n + 1..] == done + ports[k + 1..]
            && s[n := q] == done + [q] + ports[k + 1..]
  {
  }

  lemma FinishedSnoc(ports: seq<SerInfo>, k: nat, ignoreBusy: bool, free: set<string>)
    requires k < |ports|
    ensures Finished(ports[..k + 1], ignoreBusy, free) ==
            Finished(ports[..k], ignoreBusy, free) +
              if ignoreBusy && ports[k].devPath !in free then [] else [Named(ports[k])]
  {
    assert ports[..k + 1][..k] == ports[..k];
  }

  /** The state of the filtering loop when `k` of the original ports have been visited. */
  ghost predicate Going(
    asi: seq<SerInfo>, ii: int, tried: seq<string>, ports: seq<SerInfo>, k: nat, ignoreBusy: bool, free: set<string>)
  {
    && k <= |ports|
    && var done := Finished(ports[..k], ignoreBusy, free);
    && ii == |done| && asi == done + ports[k..]
    && tried == if ignoreBusy then Paths(ports)[..k] else []
  }

  lemma GoingStarts(ports: seq<SerInfo>, ignoreBusy: bool, free: set<string>)
    ensures Going(ports, 0, [], ports, 0, ignoreBusy, free)
  {
    assert ports[..0] == [] && Paths(ports)[..0] == [];
  }

  lemma GoingEnds(
    asi: seq<SerInfo>, ii: int, tried: seq<string>, ports: seq<SerInfo>, k: nat, ignoreBusy: bool, free: set<string>)
    requires Going(asi, ii, tried, ports, k, ignoreBusy, free) && ii >= |asi|
    ensures asi == Finished(ports, ignoreBusy, free)
    ensures tried == if ignoreBusy then Paths(ports) else []
  {
    assert ports[..k] == ports && Paths(ports)[..k] == Paths(ports);
  }

  lemma GoingOn(
    asi: seq<SerInfo>, ii: int, tried: seq<string>, ports: seq<SerInfo>, k: nat, ignoreBusy: bool, free: set<string>)
    requires Going(asi, ii, tried, ports, k, ignoreBusy, free) && ii < |asi|
    ensures 0 <= ii && k < |ports| && asi[ii] == ports[k]
    ensures var tried' := tried + if ignoreBusy then [asi[ii].devPath] else [];
            if ignoreBusy && asi[ii].devPath !in free
            then Going(asi[..ii] + asi[ii + 1..], ii, tried', ports, k + 1, ignoreBusy, free)
            else Going(asi[ii := Named(asi[ii])], ii + 1, tried', ports, k + 1, ignoreBusy, free)
  {
    var done := Finished(ports[..k], ignoreBusy, free);
    Around(done, ports, k, Named(ports[k]));
    FinishedSnoc(ports, k, ignoreBusy, free);
    assert Paths(ports)[..k + 1] == Paths(ports)[..k] + [ports[k].devPath];
  }

  class PortArray {
    var asi: seq<SerInfo>

    constructor ()
      ensures asi == []
    {
      asi := [];
    }

    /** Overwrites the port of the same name, or adds the port at the end. */
    method AddPort(si: SerInfo)
      modifies this
      ensures asi == Upsert(old(asi), si)
    {
      var dup := false;
      var ii := 0;
      while ii < |asi| && !dup
        invariant 0 <= ii <= |asi|
        invariant !dup ==> asi == old(asi) && forall i :: 0 <= i < ii ==> asi[i].portName != si.portName
        invariant dup ==> IndexOf(old(asi), si.portName) < |old(asi)| && asi == Upsert(old(asi), si)
        decreases |asi| - ii, !dup
      {
        if asi[ii].portName == si.portName {
          dup := true;
          IndexOfUnique(asi, si.portName, ii);
          asi := asi[ii := si];
        }
        ii := ii + 1;
      }
      if !dup {
        IndexOfUnique(asi, si.portName, |asi|);
        asi := asi + [si];
      }
    }

    /** Adds the ports found under one registry key to those collected so far. */
    method SearchPnpKey(found: seq<SerInfo>)
      modifies this
      ensures asi == Discover(old(asi), found)
    {
      for i := 0 to |found|
        invariant asi == Discover(old(asi), found[..i])
      {
        assert found[..i + 1][..i] == found[..i];
        AddPort(found[i]);
      }
      assert found[..|found|] == found;
    }

    /** Searches one registry key after another. */
    method SearchKeys(keys: seq<seq<SerInfo>>)
      modifies this
      ensures asi == Discover(old(asi), Concat(keys))
    {
      for i := 0 to |keys|
        invariant asi == Discover(old(asi), Concat(keys[..i]))
      {
        assert keys[..i + 1][..i] == keys[..i];
        DiscoverAppend(old(asi), Concat(keys[..i]), keys[i]);
        SearchPnpKey(keys[i]);
      }
      assert keys[..|keys|] == keys;
    }

    /** Fills in the friendly name and the description of the port at `ii`. */
    method NameAt(ii: nat)
      requires ii < |asi|
      modifies this
      ensures asi == old(asi)[ii := Named(old(asi)[ii])]
      ensures |asi| == |old(asi)| && FinishedForm(old(asi)[ii], asi[ii])
      ensures forall k :: 0 <= k < |asi| && k != ii ==> asi[k] == old(asi)[k]
    {
      if asi[ii].friendlyName == "" {
        asi := asi[ii := asi[ii].(friendlyName := asi[ii].portName)];
      }
      if asi[ii].portDesc == "" {
        asi := asi[ii := asi[ii].(portDesc := asi[ii].friendlyName)];
        var startdex := Find(asi[ii].portDesc, " (");
        var enddex := Find(asi[ii].portDesc, ")");
        if startdex > 0 && enddex == |asi[ii].portDesc| - 1 {
          asi := asi[ii := asi[ii].(portDesc := asi[ii].portDesc[..startdex])];
        }
      }
    }

    method RemoveAt(ii: nat)
      requires ii < |asi|
      modifies this
      ensures asi == old(asi)[..ii] + old(asi)[ii + 1..]
    {
      asi := asi[..ii] + asi[ii + 1..];
    }

    /** One turn of the loop below: the index to go on from, and the paths that were opened. */
    method Visit(
        ii: int, tried: seq<string>, ignoreBusy: bool, free: set<string>, ghost ports: seq<SerInfo>, ghost k: nat)
      returns (next: int, nowTried: seq<string>)
      requires ii < |asi| && Going(asi, ii, tried, ports, k, ignoreBusy, free)
      modifies this
      ensures Going(asi, next, nowTried, ports, k + 1, ignoreBusy, free)
      ensures |asi| - next < |old(asi)| - ii
    {
      GoingOn(asi, ii, tried, ports, k, ignoreBusy, free);
      next, nowTried := ii, tried;
      if ignoreBusy {
        nowTried := nowTried + [asi[ii].devPath];
        if asi[ii].devPath !in free {
          RemoveAt(ii);
          return;
        }
      }
      NameAt(ii);
      next := ii + 1;
      assert tried + [] == tried;
    }

    /**
     * Removes the ports that cannot be opened, while iterating, and names the others; `tried` are
     * the paths that were opened, in order.
     */
    method FilterAndName(ignoreBusy: bool, free: set<string>) returns (tried: seq<string>, ghost from: seq<nat>)
      modifies this
      ensures asi == Finished(old(asi), ignoreBusy, free)
      ensures TracedTo(asi, old(asi), from, ignoreBusy, free)
      ensures tried == if ignoreBusy then Paths(old(asi)) else []
    {
      tried := [];
      var ii := 0;
      ghost var ports, k := asi, 0;
      GoingStarts(asi, ignoreBusy, free);
      while ii < |asi|
        invariant Going(asi, ii, tried, ports, k, ignoreBusy, free)
        decreases |asi| - ii
      {
        ii, tried := Visit(ii, tried, ignoreBusy, free, ports, k);
        k := k + 1;
      }
      GoingEnds(asi, ii, tried, ports, k, ignoreBusy, free);
      from := FinishedTraced(ports, ignoreBusy, free);
    }

    /** The whole enumeration, with the ports found in the registry. */
    method EnumSerialPorts(keys: seq<seq<SerInfo>>, ignoreBusy: bool, free: set<string>)
      returns (tried: seq<string>, ghost from: seq<nat>)
      modifies this
      ensures asi == Finished(Collected(Concat(keys)), ignoreBusy, free)
      ensures Reflects(Collected(Concat(keys)), Concat(keys))
      ensures TracedTo(asi, Collected(Concat(keys)), from, ignoreBusy, free)
      ensures tried == if ignoreBusy then Paths(Collected(Concat(keys))) else []
    {
      asi := [];
      SearchKeys(keys);
      CollectedReflects(Concat(keys));
      tried, from := FilterAndName(ignoreBusy, free);
    }
  }
}
