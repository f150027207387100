/** Text forms 1 and 2 of section 2.2 of RFC 4291, with any number of leading zeros, and the
    addresses they stand for. */
module Ipv6Text {
  import opened Basics
  import opened Numerals

  const HEX: nat := 16

  /** A group of hexadecimal digits with a value of 16 bits. */
  predicate IsGroup(g: seq<char>) {
    g != [] && AllDigits(g, HEX) && Value(g, HEX) <= 0xFFFF
  }

  predicate AllGroups(gs: seq<seq<char>>) {
    forall k :: 0 <= k < |gs| ==> IsGroup(gs[k])
  }

  /** Groups with a colon between each two. */
  function Join(gs: seq<seq<char>>): seq<char> {
    if gs == [] then [] else if |gs| == 1 then gs[0] else gs[0] + ":" + Join(gs[1..])
  }

  function GroupBytes(g: seq<char>): seq<Byte>
    requires IsGroup(g)
  {
    [Value(g, HEX) / 256, Value(g, HEX) % 256]
  }

  function Bytes(gs: seq<seq<char>>): (b: seq<Byte>)
    requires AllGroups(gs)
    ensures |b| == 2 * |gs|
  {
    if gs == [] then []
    else
      var front := gs[..|gs| - 1];
      Bytes(front) + GroupBytes(gs[|gs| - 1])
  }

  function Zeros(n: nat): (z: seq<Byte>)
    ensures |z| == n && forall k :: 0 <= k < n ==> z[k] == 0
  {
    if n == 0 then [] else [0] + Zeros(n - 1)
  }

  /** Form 1: eight groups. */
  ghost predicate Form1(t: seq<char>, gs: seq<seq<char>>) {
    |gs| == 8 && AllGroups(gs) && t == Join(gs)
  }

  /** Form 2: one "::" standing for at least one group of zeros. */
  ghost predicate Form2(t: seq<char>, left: seq<seq<char>>, right: seq<seq<char>>) {
    && |left| + |right| <= 7 && AllGroups(left) && AllGroups(right)
    && t == Join(left) + "::" + Join(right)
  }

  function Expanded(left: seq<seq<char>>, right: seq<seq<char>>): (a: seq<Byte>)
    requires |left| + |right| <= 8 && AllGroups(left) && AllGroups(right)
    ensures |a| == 16
  {
    Bytes(left) + Zeros(16 - 2 * (|left| + |right|)) + Bytes(right)
  }

  /** The text stands for the address. */
  ghost predicate Denotes(t: seq<char>, address: seq<Byte>) {
    || (exists gs :: Form1(t, gs) && address == Bytes(gs))
    || (exists left, right :: Form2(t, left, right) && address == Expanded(left, right))
  }

  // ---- Reading a text character by character ----

  /** The complete groups read so far, the digits of the current one, and how many groups stood
      in front of the "::" if there was one. */
  datatype Reading = Reading(groups: seq<seq<char>>, cur: seq<char>, gap: int)

  const NO_GAP := -1

  const START := Reading([], [], NO_GAP)

  predicate Sound(r: Reading) {
    && AllGroups(r.groups) && |r.groups| <= 8
    && (r.cur == [] || IsGroup(r.cur))
    && -1 <= r.gap <= |r.groups|
  }

  function Step(r: Reading, c: char, last: bool): Option<Reading> {
    if IsDigit(c, HEX) then
      var cur := r.cur + [c];
      if AllDigits(cur, HEX) && Value(cur, HEX) > 0xFFFF then None else Some(r.(cur := cur))
    else if c != ':' then None
    else if r.cur == [] then
      if r.gap != NO_GAP then None else Some(r.(gap := |r.groups|))
    else if last || |r.groups| == 8 then None
    else Some(r.(groups := r.groups + [r.cur], cur := []))
  }

  function Run(r: Reading, rest: seq<char>): Option<Reading>
    decreases |rest|
  {
    if rest == [] then Some(r)
    else
      match Step(r, rest[0], |rest| == 1)
      case None => None
      case Some(r') => Run(r', rest[1..])
  }

  /** The groups in front of and behind the "::", or eight groups and none. */
  function Finish(r: Reading): Option<(seq<seq<char>>, seq<seq<char>>)> {
    if r.cur != [] && |r.groups| == 8 then None
    else
      var all := if r.cur != [] then r.groups + [r.cur] else r.groups;
      if r.gap < 0 then if |all| == 8 then Some((all, [])) else None
      else if |all| == 8 || r.gap > |all| then None
      else Some((all[..r.gap], all[r.gap..]))
  }

  /** A leading colon must be followed by another. */
  function Parse(t: seq<char>): Option<(seq<seq<char>>, seq<seq<char>>)> {
    if t != [] && t[0] == ':' && (|t| < 2 || t[1] != ':') then None
    else
      match Run(START, if t != [] && t[0] == ':' then t[1..] else t)
      case None => None
      case Some(r) => Finish(r)
  }

  // ---- Whatever is read was written that way ----

  /** Groups each followed by a colon. */
  function Closed(gs: seq<seq<char>>): seq<char> {
    if gs == [] then [] else Closed(gs[..|gs| - 1]) + gs[|gs| - 1] + ":"
  }

  /** The characters a reading has consumed. */
  function Consumed(r: Reading): seq<char>
    requires -1 <= r.gap <= |r.groups|
  {
    if r.gap < 0 then Closed(r.groups) + r.cur
    else Closed(r.groups[..r.gap]) + ":" + Closed(r.groups[r.gap..]) + r.cur
  }

  lemma ClosedSnoc(gs: seq<seq<char>>, g: seq<char>)
    ensures Closed(gs + [g]) == Closed(gs) + g + ":"
  {
    assert (gs + [g])[..|gs|] == gs;
  }

  lemma CloseConsumes(r: Reading)
    requires -1 <= r.gap <= |r.groups|
    ensures var r' := r.(groups := r.groups + [r.cur], cur := []);
      -1 <= r'.gap <= |r'.groups| && Consumed(r') == Consumed(r) + ":"
  {
    hide Closed;
    if r.gap < 0 {
      ClosedSnoc(r.groups, r.cur);
    } else {
      var front, back := r.groups[..r.gap], r.groups[r.gap..];
      SplitAt(r.groups, r.gap, r.cur);
      ClosedSnoc(back, r.cur);
      assert Closed(front) + ":" + (Closed(back) + r.cur + ":") + [] == Closed(front) + ":" + Closed(back) + r.cur + ":";
    }
  }

  lemma SplitAt<T>(gs: seq<T>, k: nat, g: T)
    requires k <= |gs|
    ensures (gs + [g])[..k] == gs[..k] && (gs + [g])[k..] == gs[k..] + [g]
  {
  }

  lemma GapConsumes(r: Reading)
    requires Sound(r) && r.cur == [] && r.gap == NO_GAP
    ensures Consumed(r.(gap := |r.groups|)) == Consumed(r) + ":"
  {
    assert r.groups[..|r.groups|] == r.groups && r.groups[|r.groups|..] == [];
    assert Closed([]) == [];
    hide Closed;
  }

  lemma DigitConsumes(r: Reading, cur: seq<char>, c: char)
    requires Sound(r) && cur == r.cur + [c]
    ensures Consumed(r.(cur := cur)) == Consumed(r) + [c]
  {
    hide Closed;
  }

  lemma StepIsSound(r: Reading, c: char, last: bool)
    requires Sound(r) && Step(r, c, last).Some?
    ensures Sound(Step(r, c, last).value)
  {
    hide Value, IsDigit;
    if IsDigit(c, HEX) {
      DigitAppended(r.cur, c);
      hide AllDigits;
    } else if r.cur != [] {
      GroupAppended(r.groups, r.cur);
      hide IsGroup, AllGroups;
    }
  }

  lemma DigitAppended(cur: seq<char>, c: char)
    requires AllDigits(cur, HEX) && IsDigit(c, HEX)
    ensures AllDigits(cur + [c], HEX)
  {
    hide IsDigit;
  }

  lemma GroupAppended(groups: seq<seq<char>>, g: seq<char>)
    requires AllGroups(groups) && IsGroup(g)
    ensures AllGroups(groups + [g])
  {
    hide IsGroup;
  }

  lemma StepConsumes(r: Reading, c: char, last: bool)
    requires Sound(r) && Step(r, c, last).Some?
    ensures var r' := Step(r, c, last).value;
      && Sound(r') && Consumed(r') == Consumed(r) + [c]
      && r' != START && (r.gap >= 0 ==> r'.gap == r.gap)
      && (r == START && c == ':' ==> r'.gap == 0)
      && (r'.gap == 0 ==> r.gap == 0 || (c == ':' && r == START))
      && (last ==> r'.cur != [] || r'.gap == |r'.groups|)
  {
    hide Consumed, IsGroup, AllDigits, Value, AllGroups, IsDigit, Step;
    StepIsSound(r, c, last);
    StepShape(r, c, last);
    if IsDigit(c, HEX) {
      DigitConsumes(r, r.cur + [c], c);
    } else if r.cur == [] {
      GapConsumes(r);
    } else {
      CloseConsumes(r);
    }
  }

  /** The three ways on. */
  lemma StepShape(r: Reading, c: char, last: bool)
    requires Step(r, c, last).Some?
    ensures Step(r, c, last).value ==
      if IsDigit(c, HEX) then r.(cur := r.cur + [c])
      else if r.cur == [] then r.(gap := |r.groups|)
      else r.(groups := r.groups + [r.cur], cur := [])
    ensures IsDigit(c, HEX) ==> c != ':'
    ensures !IsDigit(c, HEX) ==> c == ':'
    ensures !IsDigit(c, HEX) && r.cur == [] ==> r.gap == NO_GAP
    ensures !IsDigit(c, HEX) && r.cur != [] ==> !last
  {
    hide AllDigits, Value;
  }

  lemma {:induction false} RunConsumes(r: Reading, rest: seq<char>)
    requires Sound(r) && Run(r, rest).Some?
    ensures var e := Run(r, rest).value;
      && Sound(e) && Consumed(e) == Consumed(r) + rest
      && (r.gap >= 0 ==> e.gap == r.gap)
      && (r == START && rest != [] && rest[0] == ':' ==> e.gap == 0)
      && (e.gap == 0 ==> r.gap == 0 || (r == START && rest != [] && rest[0] == ':'))
      && (if rest == [] then e == r else e.cur != [] || e.gap == |e.groups|)
    decreases |rest|
  {
    hide Consumed, Sound, Step;
    if rest != [] {
      var r' := Step(r, rest[0], |rest| == 1).value;
      StepConsumes(r, rest[0], |rest| == 1);
      RunConsumes(r', rest[1..]);
      assert rest == [rest[0]] + rest[1..];
    }
  }

  lemma {:induction false} ClosedIsJoin(gs: seq<seq<char>>)
    requires gs != []
    ensures Closed(gs) == Join(gs) + ":"
    ensures Closed(gs[..|gs| - 1]) + gs[|gs| - 1] == Join(gs)
    decreases |gs|
  {
    var front, g := gs[..|gs| - 1], gs[|gs| - 1];
    if |gs| > 1 {
      ClosedIsJoin(front);
      JoinSnoc(front, g);
      assert front + [g] == gs;
    }
  }

  lemma {:induction false} JoinSnoc(gs: seq<seq<char>>, g: seq<char>)
    requires gs != []
    ensures Join(gs + [g]) == Join(gs) + ":" + g
  {
    if |gs| > 1 {
      JoinSnoc(gs[1..], g);
      assert (gs + [g])[1..] == gs[1..] + [g];
    } else {
      assert (gs + [g])[1..] == [g];
    }
  }

  lemma StartConsumed()
    ensures Consumed(START) == []
  {
    assert Closed([]) == [];
  }

  /** A successful parse is a writing of the text in form 1 or 2. */
  lemma ParseIsSound(t: seq<char>, left: seq<seq<char>>, right: seq<seq<char>>)
    requires Parse(t) == Some((left, right))
    ensures if |left| + |right| == 8 then right == [] && Form1(t, left) else Form2(t, left, right)
  {
    hide Run, Step, Consumed, Closed, Join, IsGroup;
    var leading := t != [] && t[0] == ':';
    var rest := if leading then t[1..] else t;
    StartConsumed();
    RunConsumes(START, rest);
    var r := Run(START, rest).value;
    assert [] + rest == rest;
    var all := if r.cur != [] then r.groups + [r.cur] else r.groups;
    assert AllGroups(all);
    if rest != [] {
      FinishedText(r);
      if leading {
        assert t == [t[0]] + t[1..];
      }
      if r.gap >= 0 {
        assert left == all[..r.gap] && right == all[r.gap..];
        Compressed(t, rest, leading, left, right);
      }
    }
  }

  lemma Compressed(t: seq<char>, rest: seq<char>, leading: bool, left: seq<seq<char>>, right: seq<seq<char>>)
    requires rest == Closed(left) + ":" + Join(right)
    requires if leading then t == [':'] + rest && left == [] else t == rest && left != []
    ensures t == Join(left) + "::" + Join(right)
  {
    if leading {
      assert Closed(left) == [] && Join(left) == [];
    } else {
      ClosedIsJoin(left);
    }
    hide *;
    ColonsMeet(Join(left), Join(right));
  }

  lemma ColonsMeet(a: seq<char>, b: seq<char>)
    ensures a + ":" + ":" + b == a + "::" + b
    ensures [':'] + ([] + ":" + b) == [] + "::" + b
  {
  }

  lemma FinishedText(r: Reading)
    requires Sound(r) && (r.cur != [] || r.gap == |r.groups|)
    ensures var all := if r.cur != [] then r.groups + [r.cur] else r.groups;
      if r.gap < 0 then Consumed(r) == Join(all)
      else Consumed(r) == Closed(all[..r.gap]) + ":" + Join(all[r.gap..])
  {
    var all := if r.cur != [] then r.groups + [r.cur] else r.groups;
    if r.cur != [] {
      if r.gap < 0 {
        ClosedIsJoin(all);
        assert all[..|all| - 1] == r.groups;
      } else {
        var tail := all[r.gap..];
        ClosedIsJoin(tail);
        assert tail[..|tail| - 1] == r.groups[r.gap..];
        assert all[..r.gap] == r.groups[..r.gap];
      }
    } else {
      assert all[r.gap..] == [];
    }
  }

  // ---- Every text of form 1 or 2 is read ----

  lemma {:induction false} RunDigits(r: Reading, g: seq<char>, k: nat, rest: seq<char>)
    requires IsGroup(g) && k <= |g| && r.cur == g[..k]
    ensures Run(r, g[k..] + rest) == Run(r.(cur := g), rest)
    decreases |g| - k
  {
    var s := g[k..] + rest;
    if k == |g| {
      assert s == rest && g[..k] == g;
    } else {
      assert s[0] == g[k] && s[1..] == g[k + 1..] + rest && g[..k + 1] == g[..k] + [g[k]];
      ValueGrows(g, k + 1, HEX);
      hide Value, IsDigit;
      RunDigits(r.(cur := g[..k + 1]), g, k + 1, rest);
    }
  }

  lemma RunClose(r: Reading, rest: seq<char>)
    requires r.cur != [] && rest != [] && |r.groups| < 8
    ensures Run(r, ":" + rest) == Run(r.(groups := r.groups + [r.cur], cur := []), rest)
  {
    assert (":" + rest)[1..] == rest;
  }

  lemma RunGap(r: Reading, rest: seq<char>)
    requires r.cur == [] && r.gap == NO_GAP
    ensures Run(r, ":" + rest) == Run(r.(gap := |r.groups|), rest)
  {
    assert (":" + rest)[1..] == rest;
  }

  lemma ShiftOne<T>(a: seq<T>, gs: seq<T>)
    requires |gs| > 1
    ensures a + [gs[0]] + gs[1..][..|gs| - 2] == a + gs[..|gs| - 1]
  {
    assert gs[..|gs| - 1] == [gs[0]] + gs[1..][..|gs| - 2];
  }

  lemma WholeAgain<T>(left: seq<T>, right: seq<T>)
    ensures (left + right)[..|left|] == left && (left + right)[|left|..] == right
    ensures right != [] ==> left + right[..|right| - 1] + [right[|right| - 1]] == left + right
  {
  }

  lemma {:induction false} RunJoin(r: Reading, gs: seq<seq<char>>, rest: seq<char>)
    requires r.cur == [] && gs != [] && AllGroups(gs) && |r.groups| + |gs| <= 9
    ensures Run(r, Join(gs) + rest) == Run(r.(groups := r.groups + gs[..|gs| - 1], cur := gs[|gs| - 1]), rest)
    decreases |gs|
  {
    hide Run, IsGroup;
    var g := gs[0];
    assert g != [] && g[0..] == g by {
      assert IsGroup(g);
      IsGroupNotEmpty(g);
    }
    if |gs| == 1 {
      RunDigits(r, g, 0, rest);
      assert r.groups + gs[..0] == r.groups;
    } else {
      var tail := gs[1..];
      var next := Join(tail) + rest;
      assert Join(gs) + rest == g + (":" + next);
      RunDigits(r, g, 0, ":" + next);
      JoinNotEmpty(tail);
      RunClose(r.(cur := g), next);
      RunJoin(r.(groups := r.groups + [g]), tail, rest);
      ShiftOne(r.groups, gs);
    }
  }

  lemma IsGroupNotEmpty(g: seq<char>)
    requires IsGroup(g)
    ensures g != [] && g[0] != ':'
  {
    assert IsDigit(g[0], HEX);
  }

  lemma JoinNotEmpty(gs: seq<seq<char>>)
    requires gs != [] && AllGroups(gs)
    ensures Join(gs) != [] && Join(gs)[0] != ':'
  {
    IsGroupNotEmpty(gs[0]);
  }

  lemma Form1IsParsed(t: seq<char>, gs: seq<seq<char>>)
    requires Form1(t, gs)
    ensures Parse(t) == Some((gs, []))
  {
    hide IsGroup, Join;
    JoinNotEmpty(gs);
    IsGroupNotEmpty(gs[7]);
    RunJoin(START, gs, []);
    assert t + [] == t;
    assert [] + gs[..7] == gs[..7] && gs[..7] + [gs[7]] == gs;
    assert Run(START.(groups := gs[..7], cur := gs[7]), []) == Some(START.(groups := gs[..7], cur := gs[7]));
  }

  lemma ReadNothing(r: Reading)
    ensures Run(r, []) == Some(r)
  {
  }

  lemma FinishRight(left: seq<seq<char>>, right: seq<seq<char>>)
    requires |left| + |right| <= 7
    ensures var last := |right| - 1;
      var r := if right == [] then Reading(left, [], |left|) else Reading(left + right[..last], right[last], |left|);
      (right != [] ==> right[last] != []) ==> Finish(r) == Some((left, right))
  {
    WholeAgain(left, right);
    assert right == [] ==> left + right == left;
  }

  /** Reading what stands behind the second colon of a "::". */
  lemma RightIsRead(left: seq<seq<char>>, right: seq<seq<char>>)
    requires |left| + |right| <= 7 && AllGroups(left) && AllGroups(right)
    ensures var r := Run(Reading(left, [], |left|), Join(right));
      r.Some? && Finish(r.value) == Some((left, right))
  {
    hide *;
    var r := Reading(left, [], |left|);
    FinishRight(left, right);
    if right == [] {
      NoGroups();
      ReadNothing(r);
    } else {
      RunJoin(r, right, []);
      assert Join(right) + [] == Join(right);
      var last := |right| - 1;
      LastGroup(right);
      ReadNothing(Reading(left + right[..last], right[last], |left|));
    }
  }

  lemma Form2IsParsed(t: seq<char>, left: seq<seq<char>>, right: seq<seq<char>>)
    requires Form2(t, left, right)
    ensures Parse(t) == Some((left, right))
  {
    var behind := Join(right);
    TwoColons(Join(left), behind);
    RightIsRead(left, right);
    hide *;
    if left == [] {
      NoGroups();
      RunGap(START, behind);
      ColonFirst(t, ":" + behind);
    } else {
      JoinNotEmpty(left);
      LeftIsRead(left, behind);
      NoColonFirst(t);
    }
  }

  lemma NoGroups()
    ensures Join([]) == []
  {
  }

  lemma ColonFirst(t: seq<char>, rest: seq<char>)
    requires t == ":" + rest && rest != [] && rest[0] == ':'
    ensures Parse(t) == match Run(START, rest) case None => None case Some(r) => Finish(r)
  {
    assert t[1..] == rest;
    hide Run, Finish;
  }

  lemma NoColonFirst(t: seq<char>)
    requires t != [] && t[0] != ':'
    ensures Parse(t) == match Run(START, t) case None => None case Some(r) => Finish(r)
  {
    hide Run, Finish;
  }

  /** Reading what stands in front of a "::" and then its colons. */
  lemma LeftIsRead(left: seq<seq<char>>, behind: seq<char>)
    requires left != [] && |left| <= 7 && AllGroups(left)
    ensures Run(START, Join(left) + (":" + (":" + behind))) == Run(Reading(left, [], |left|), behind)
  {
    hide Run, Finish, IsGroup, Step, Join;
    var last := |left| - 1;
    RunJoin(START, left, ":" + (":" + behind));
    assert [] + left[..last] == left[..last] && left[..last] + [left[last]] == left;
    LastGroup(left);
    RunClose(START.(groups := left[..last], cur := left[last]), ":" + behind);
    RunGap(START.(groups := left), behind);
  }

  lemma LastGroup(gs: seq<seq<char>>)
    requires gs != [] && AllGroups(gs)
    ensures gs[|gs| - 1] != []
  {
    hide IsGroup;
    IsGroupNotEmpty(gs[|gs| - 1]);
  }

  lemma TwoColons(a: seq<char>, b: seq<char>)
    ensures a + "::" + b == a + (":" + (":" + b))
  {
  }

  /** The reading is exact: it succeeds on the texts that stand for an address and no others, and
      yields the address each stands for. */
  lemma ParseIsExact(t: seq<char>)
    ensures Parse(t).Some? <==> exists address :: Denotes(t, address)
    ensures forall address :: Denotes(t, address) ==>
      Parse(t).Some? && |Parse(t).value.0| + |Parse(t).value.1| <= 8
      && AllGroups(Parse(t).value.0) && AllGroups(Parse(t).value.1)
      && address == Expanded(Parse(t).value.0, Parse(t).value.1)
  {
    forall address | Denotes(t, address)
      ensures Parse(t).Some? && |Parse(t).value.0| + |Parse(t).value.1| <= 8
      ensures AllGroups(Parse(t).value.0) && AllGroups(Parse(t).value.1)
      ensures address == Expanded(Parse(t).value.0, Parse(t).value.1)
    {
      if gs :| Form1(t, gs) && address == Bytes(gs) {
        Form1IsParsed(t, gs);
        assert Expanded(gs, []) == Bytes(gs);
      } else {
        var left, right :| Form2(t, left, right) && address == Expanded(left, right);
        Form2IsParsed(t, left, right);
      }
    }
    if Parse(t).Some? {
      var left, right := Parse(t).value.0, Parse(t).value.1;
      ParseIsSound(t, left, right);
      if |left| + |right| == 8 {
        assert Denotes(t, Bytes(left));
      } else {
        assert Denotes(t, Expanded(left, right));
      }
    }
  }
}
