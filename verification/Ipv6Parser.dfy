/** ipv6AddrStringToBinary of src/ge/inet/INetUtil.cpp. */
module Ipv6Parser {
  import opened Basics
  import opened Numerals
  import opened Ipv6Text

  /** The index of the first percent sign, or -1. */
  function PercentIndex(s: seq<char>): (p: int)
    ensures -1 <= p < |s|
    ensures p == -1 ==> '%' !in s
    ensures p >= 0 ==> s[p] == '%' && '%' !in s[..p]
  {
    if s == [] then -1
    else if s[0] == '%' then 0
    else
      var p := PercentIndex(s[1..]);
      if p == -1 then -1
      else
        assert s[..p + 1] == [s[0]] + s[1..][..p];
        p + 1
  }

  /** The text without its zone (section 11 of RFC 4007); an empty zone is no text at all. */
  function Unzoned(src: seq<char>): Option<seq<char>> {
    var p := PercentIndex(src);
    if p == -1 then Some(src) else if p == |src| - 1 then None else Some(src[..p])
  }

  function Read(src: seq<char>): Option<(seq<seq<char>>, seq<seq<char>>)> {
    match Unzoned(src)
    case None => None
    case Some(t) => Parse(t)
  }

  /** What the buffer holds between the two halves: zero where bytes were moved away, and what it
      held before in the rest. */
  function Between(was: seq<Byte>, from: nat, to: nat, filled: nat): (b: seq<Byte>)
    requires from <= to <= |was|
    ensures |b| == to - from
    ensures forall k :: 0 <= k < to - from ==> b[k] == if from + k < filled then 0 else was[from + k]
  {
    seq(to - from, k requires 0 <= k < to - from => if from + k < filled then 0 else was[from + k])
  }

  /** The buffer after a success. */
  function Placed(was: seq<Byte>, left: seq<seq<char>>, right: seq<seq<char>>): (b: seq<Byte>)
    requires |was| >= 16 && |left| + |right| <= 8 && AllGroups(left) && AllGroups(right)
    ensures |b| == |was|
  {
    var from, to := 2 * |left|, 16 - 2 * |right|;
    Bytes(left) + Between(was, from, to, from + 2 * |right|) + Bytes(right) + was[16..]
  }

  /** It is the address exactly when the bytes behind the written groups, up to where the second
      half goes, were zero before. */
  lemma PlacedIsExpanded(was: seq<Byte>, left: seq<seq<char>>, right: seq<seq<char>>)
    requires |was| >= 16 && |left| + |right| <= 8 && AllGroups(left) && AllGroups(right)
    ensures Placed(was, left, right)[..16] == Expanded(left, right) <==>
      forall p :: 2 * (|left| + |right|) <= p < 16 - 2 * |right| ==> was[p] == 0
  {
    var from, to := 2 * |left|, 16 - 2 * |right|;
    assert Placed(was, left, right)[..16]
      == Bytes(left) + Between(was, from, to, from + 2 * |right|) + Bytes(right) by {
      hide Between, AllGroups;
    }
    BetweenIsZero(was, from, to, from + 2 * |right|);
    hide Between, Zeros, AllGroups, Placed;
    Middle(Bytes(left), Between(was, from, to, from + 2 * |right|), Zeros(to - from), Bytes(right));
  }

  lemma BetweenIsZero(was: seq<Byte>, from: nat, to: nat, filled: nat)
    requires from <= to <= |was| && from <= filled
    ensures Between(was, from, to, filled) == Zeros(to - from) <==> forall p :: filled <= p < to ==> was[p] == 0
  {
    var between, zeros := Between(was, from, to, filled), Zeros(to - from);
    forall p | from <= p < to ensures between[p - from] == (if p < filled then 0 else was[p]) && zeros[p - from] == 0 {
    }
    hide Between, Zeros;
  }

  lemma Middle<T>(a: seq<T>, x: seq<T>, y: seq<T>, b: seq<T>)
    requires |x| == |y|
    ensures a + x + b == a + y + b <==> x == y
  {
    if a + x + b == a + y + b {
      assert x == (a + x + b)[|a|..|a| + |x|];
      assert y == (a + y + b)[|a|..|a| + |y|];
    }
  }

  lemma FourPieces(s: seq<Byte>, was: seq<Byte>, c: nat, j: nat, to: nat, b: seq<Byte>)
    requires c <= j < 16 <= |was| == |s| && to == 16 - (j - c) && |b| == to - c
    requires forall p :: 0 <= p < c ==> s[p] == was[p]
    requires forall p :: c <= p < to ==> s[p] == b[p - c]
    requires forall p :: to <= p < 16 ==> s[p] == was[p - (16 - j)]
    requires forall p :: 16 <= p < |s| ==> s[p] == was[p]
    ensures s == was[..c] + b + was[c..j] + was[16..]
  {
  }

  /** The loop that moves the bytes from `colonPos` up to `j` to the end of the sixteen, last one
      first, leaving zeros behind. */
  method MoveToEnd(dest: array<Byte>, colonPos: nat, j: nat)
    requires colonPos <= j < 16 <= dest.Length
    modifies dest
    ensures var was := old(dest[..]);
      dest[..] == was[..colonPos] + Between(was, colonPos, 16 - (j - colonPos), j) + was[colonPos..j] + was[16..]
  {
    hide *;
    var n := j - colonPos;
    ghost var was := dest[..];
    NothingMoved(was, colonPos, j);
    for i := 1 to n + 1
      invariant Moved(dest[..], was, colonPos, j, i - 1)
    {
      ghost var before := dest[..];
      dest[16 - i] := dest[colonPos + n - i];
      dest[colonPos + n - i] := 0;
      assert dest[..] == before[16 - i := before[j - i]][j - i := 0];
      OneMoved(before, was, colonPos, j, i);
    }
    AllMoved(dest[..], was, colonPos, j);
  }

  /** The last `k` bytes in front of `j` are at the end, and the places they left are zero. */
  predicate Moved(s: seq<Byte>, was: seq<Byte>, c: nat, j: nat, k: nat) {
    && c <= j < 16 <= |was| == |s| && k <= j - c
    && (forall p :: 16 - k <= p < 16 ==> s[p] == was[p - (16 - j)])
    && (forall p :: j - k <= p < 16 - k ==> s[p] == if p < j then 0 else was[p])
    && (forall p :: 0 <= p < j - k ==> s[p] == was[p])
    && (forall p :: 16 <= p < |s| ==> s[p] == was[p])
  }

  lemma NothingMoved(was: seq<Byte>, c: nat, j: nat)
    requires c <= j < 16 <= |was|
    ensures Moved(was, was, c, j, 0)
  {
  }

  lemma OneMoved(s: seq<Byte>, was: seq<Byte>, c: nat, j: nat, i: nat)
    requires 1 <= i <= j - c && Moved(s, was, c, j, i - 1)
    ensures Moved(s[16 - i := s[j - i]][j - i := 0], was, c, j, i)
  {
  }

  lemma AllMoved(s: seq<Byte>, was: seq<Byte>, c: nat, j: nat)
    requires c <= j && Moved(s, was, c, j, j - c)
    ensures s == was[..c] + Between(was, c, 16 - (j - c), j) + was[c..j] + was[16..]
  {
    var b := Between(was, c, 16 - (j - c), j);
    assert forall p :: c <= p < 16 - (j - c) ==> b[p - c] == if p < j then 0 else was[p];
    hide Between;
    FourPieces(s, was, c, j, 16 - (j - c), b);
  }

  // ---- The character loop ----

  function CurValue(r: Reading): nat
    requires Sound(r)
  {
    if r.cur == [] then 0 else Value(r.cur, HEX)
  }

  lemma RunStep(r: Reading, rest: seq<char>)
    requires rest != []
    ensures Run(r, rest) == match Step(r, rest[0], |rest| == 1) case None => None case Some(r') => Run(r', rest[1..])
  {
  }

  lemma DigitStep(r: Reading, c: char, last: bool)
    requires Sound(r) && IsDigit(c, HEX)
    ensures CurValue(r) <= 0xFFFF
    ensures CurValue(r) * 16 + CharValue(c) > 0xFFFF ==> Step(r, c, last) == None
    ensures CurValue(r) * 16 + CharValue(c) <= 0xFFFF ==>
      var r' := r.(cur := r.cur + [c]);
      Step(r, c, last) == Some(r') && Sound(r') && CurValue(r') == CurValue(r) * 16 + CharValue(c)
  {
    var cur := r.cur + [c];
    DigitAppended(r.cur, c);
    assert cur[..|r.cur|] == r.cur && cur[..|cur|] == cur;
    ValueSnoc(cur, |r.cur|, HEX);
    assert Value([], HEX) == 0;
  }

  lemma ColonStep(r: Reading, last: bool)
    requires Sound(r)
    ensures r.cur == [] ==> CurValue(r) == 0
    ensures r.cur == [] && r.gap != NO_GAP ==> Step(r, ':', last) == None
    ensures r.cur == [] && r.gap == NO_GAP ==>
      var r' := r.(gap := |r.groups|);
      Step(r, ':', last) == Some(r') && Sound(r') && CurValue(r') == 0
    ensures r.cur != [] && (last || |r.groups| == 8) ==> Step(r, ':', last) == None
    ensures r.cur != [] && !last && |r.groups| < 8 ==>
      var r' := r.(groups := r.groups + [r.cur], cur := []);
      && Step(r, ':', last) == Some(r') && Sound(r') && CurValue(r') == 0 && AllGroups(r'.groups)
      && CurValue(r) <= 0xFFFF && Bytes(r'.groups) == Bytes(r.groups) + [CurValue(r) / 256, CurValue(r) % 256]
  {
    assert !IsDigit(':', HEX);
    if r.cur != [] && |r.groups| < 8 {
      BytesSnoc(r.groups, r.cur);
    }
  }

  /** The variables of the loop after a digit. */
  lemma DigitHolds(r: Reading, c: char, last: bool, j: nat, colonPos: int, haveSeenHex: bool, val: nat)
    requires Sound(r) && Holds(r, j, colonPos, haveSeenHex, val) && IsDigit(c, HEX)
    ensures var r', v := r.(cur := r.cur + [c]), val * 16 + CharValue(c);
      if v > 0xFFFF then Step(r, c, last) == None
      else Step(r, c, last) == Some(r') && Sound(r') && Holds(r', j, colonPos, true, v)
  {
    hide Step, Sound, CurValue, IsDigit;
    DigitStep(r, c, last);
  }

  /** The variables of the loop after a colon. */
  lemma ColonHolds(r: Reading, last: bool, j: nat, colonPos: int, haveSeenHex: bool, val: nat)
    requires Sound(r) && Holds(r, j, colonPos, haveSeenHex, val)
    ensures !haveSeenHex && colonPos != -1 ==> Step(r, ':', last) == None
    ensures !haveSeenHex && colonPos == -1 ==>
      var r' := r.(gap := |r.groups|);
      Step(r, ':', last) == Some(r') && Sound(r') && Holds(r', j, j, false, val)
    ensures haveSeenHex && (last || j + 2 > 16) ==> Step(r, ':', last) == None
    ensures haveSeenHex && !last && j + 2 <= 16 ==>
      var r' := r.(groups := r.groups + [r.cur], cur := []);
      && Step(r, ':', last) == Some(r') && Sound(r') && Holds(r', j + 2, colonPos, false, 0) && AllGroups(r'.groups)
      && val <= 0xFFFF && |Bytes(r.groups)| == j && Bytes(r'.groups) == Bytes(r.groups) + [val / 256, val % 256]
  {
    hide Step, Sound, CurValue, IsDigit, AllGroups;
    ColonStep(r, last);
  }

  lemma BytesSnoc(gs: seq<seq<char>>, g: seq<char>)
    requires AllGroups(gs) && IsGroup(g)
    ensures AllGroups(gs + [g]) && Bytes(gs + [g]) == Bytes(gs) + GroupBytes(g)
  {
    assert (gs + [g])[..|gs|] == gs;
  }

  /** The loop over the characters from `start` on: it stops with a failure exactly when the
      reading does, and otherwise holds the reading in its variables and in `dest`. */
  method ReadCharacters(t: seq<char>, start: nat, dest: array<Byte>)
    returns (ok: bool, j: nat, colonPos: int, haveSeenHex: bool, val: nat, ghost r: Reading)
    requires start <= |t| && dest.Length >= 16
    modifies dest
    ensures ok <==> Run(START, t[start..]).Some?
    ensures ok ==> Some(r) == Run(START, t[start..]) && Sound(r) && Holds(r, j, colonPos, haveSeenHex, val)
    ensures ok ==> dest[..] == Bytes(r.groups) + old(dest[..])[j..]
  {
    hide Run, Step, Sound, Bytes, IsDigit, CharValue, Holds, AllGroups;
    ghost var was := dest[..];
    var i := start;
    j, colonPos, haveSeenHex, val := 0, -1, false, 0;
    r := START;
    StartHolds();
    assert dest[..] == Bytes(r.groups) + was[j..];
    while i < |t|
      invariant start <= i <= |t|
      invariant Sound(r) && Run(START, t[start..]) == Run(r, t[i..])
      invariant AllGroups(r.groups) && Holds(r, j, colonPos, haveSeenHex, val)
      invariant j <= 16 && dest[..] == Bytes(r.groups) + was[j..]
    {
      ghost var rest := t[i..];
      RunStep(r, rest);
      var ch := t[i];
      assert rest[1..] == t[i + 1..];
      i := i + 1;
      var chval := CharValue(ch);
      if chval != -1 {
        HexIsDigit(ch);
        DigitHolds(r, ch, i == |t|, j, colonPos, haveSeenHex, val);
        val := val * 16 + chval;
        if val > 0xFFFF {
          return false, j, colonPos, haveSeenHex, val, r;
        }
        haveSeenHex := true;
        r := r.(cur := r.cur + [ch]);
        continue;
      }
      if ch != ':' {
        NoStep(r, ch, i == |t|);
        return false, j, colonPos, haveSeenHex, val, r;
      }
      ColonHolds(r, i == |t|, j, colonPos, haveSeenHex, val);
      if !haveSeenHex {
        if colonPos != -1 {
          return false, j, colonPos, haveSeenHex, val, r;
        }
        colonPos := j;
        r := r.(gap := |r.groups|);
        continue;
      } else if i == |t| {
        return false, j, colonPos, haveSeenHex, val, r;
      }
      if j + 2 > 16 {
        return false, j, colonPos, haveSeenHex, val, r;
      }
      StoreGroup(dest, j, val, Bytes(r.groups), was);
      j := j + 2;
      haveSeenHex := false;
      val := 0;
      r := r.(groups := r.groups + [r.cur], cur := []);
    }
    RunNothing(r, t[i..]);
    ok := true;
  }

  /** The variables of the loop hold the reading. */
  ghost predicate Holds(r: Reading, j: nat, colonPos: int, haveSeenHex: bool, val: nat)
    requires Sound(r)
  {
    && AllGroups(r.groups) && j == 2 * |r.groups| <= 16
    && colonPos == (if r.gap == NO_GAP then -1 else 2 * r.gap)
    && (haveSeenHex <==> r.cur != [])
    && val == CurValue(r)
  }

  /** Two bytes of one group, high byte first. */
  method StoreGroup(dest: array<Byte>, j: nat, val: nat, ghost front: seq<Byte>, ghost was: seq<Byte>)
    requires j + 2 <= 16 <= dest.Length == |was| && val <= 0xFFFF
    requires |front| == j && dest[..] == front + was[j..]
    modifies dest
    ensures dest[..] == front + [val / 256, val % 256] + was[j + 2..]
  {
    dest[j] := (val / 256) % 256;
    dest[j + 1] := val % 256;
    assert val / 256 < 256;
    TwoStored(dest[..], front, was, val / 256, val % 256);
  }

  lemma TwoStored(s: seq<Byte>, front: seq<Byte>, was: seq<Byte>, high: Byte, low: Byte)
    requires |front| + 2 <= |s| == |was|
    requires s == (front + was[|front|..])[|front| := high][|front| + 1 := low]
    ensures s == front + [high, low] + was[|front| + 2..]
  {
  }

  lemma StartHolds()
    ensures Sound(START) && Holds(START, 0, -1, false, 0) && AllGroups(START.groups) && Bytes(START.groups) == []
  {
  }

  lemma HexIsDigit(c: char)
    requires CharValue(c) != -1
    ensures IsDigit(c, HEX)
  {
  }

  lemma NoStep(r: Reading, c: char, last: bool)
    requires CharValue(c) == -1 && c != ':'
    ensures Step(r, c, last) == None
  {
  }

  lemma RunNothing(r: Reading, rest: seq<char>)
    requires rest == []
    ensures Run(r, rest) == Some(r)
  {
  }

  // ---- The whole parser ----

  lemma TooShort(src: seq<char>)
    requires |src| < 2
    ensures Read(src).None?
  {
    if PercentIndex(src) == -1 && src != [] {
      assert src == [src[0]];
      assert Run(START, src).Some? ==> |Run(START, src).value.groups| == 0;
    }
  }

  lemma FinishIs(r: Reading, all: seq<seq<char>>)
    requires Sound(r) && AllGroups(all) && all == if r.cur != [] then r.groups + [r.cur] else r.groups
    ensures r.cur != [] && |r.groups| == 8 ==> Finish(r) == None
    ensures |all| <= 8 && r.gap < 0 ==> Finish(r) == if |all| == 8 then Some((all, [])) else None
    ensures |all| == 8 && r.gap >= 0 ==> Finish(r) == None
    ensures |all| < 8 && r.gap >= 0 ==> r.gap <= |all| && Finish(r) == Some((all[..r.gap], all[r.gap..]))
  {
  }

  lemma AllOf(r: Reading) returns (all: seq<seq<char>>)
    requires Sound(r)
    ensures all == if r.cur != [] then r.groups + [r.cur] else r.groups
    ensures AllGroups(all)
    ensures r.cur != [] ==> Bytes(all) == Bytes(r.groups) + [CurValue(r) / 256, CurValue(r) % 256] && CurValue(r) <= 0xFFFF
  {
    if r.cur != [] {
      BytesSnoc(r.groups, r.cur);
      all := r.groups + [r.cur];
    } else {
      all := r.groups;
    }
  }

  /** The last group, behind the loop. */
  method FlushGroup(dest: array<Byte>, filled: nat, haveSeenHex: bool, val: nat, ghost r: Reading, ghost was: seq<Byte>)
    returns (ok: bool, j: nat, ghost all: seq<seq<char>>)
    requires Sound(r) && (haveSeenHex <==> r.cur != []) && val == CurValue(r) && filled == 2 * |r.groups| <= 16
    requires 16 <= dest.Length == |was| && dest[..] == Bytes(r.groups) + was[filled..]
    modifies dest
    ensures ok <==> r.cur == [] || |r.groups| < 8
    ensures all == if r.cur != [] then r.groups + [r.cur] else r.groups
    ensures AllGroups(all) && (ok ==> j == 2 * |all| <= 16 && dest[..] == Bytes(all) + was[j..])
  {
    all := AllOf(r);
    hide Bytes, AllGroups, IsGroup, CurValue;
    j := filled;
    if haveSeenHex {
      if j + 2 > 16 {
        return false, j, all;
      }
      StoreGroup(dest, j, val, Bytes(r.groups), was);
      j := j + 2;
    }
    ok := true;
  }

  /** The move, seen from the groups. */
  method MoveRight(dest: array<Byte>, colonPos: nat, j: nat,
                   ghost all: seq<seq<char>>, ghost gap: nat, ghost was: seq<Byte>)
    requires AllGroups(all) && gap <= |all| < 8 && colonPos == 2 * gap && j == 2 * |all|
    requires 16 <= dest.Length == |was| && dest[..] == Bytes(all) + was[j..]
    modifies dest
    ensures AllGroups(all[..gap]) && AllGroups(all[gap..]) && dest[..] == Placed(was, all[..gap], all[gap..])
  {
    hide *;
    MovedIsPlaced(was, all, gap, colonPos, j, 16 - (j - colonPos));
    MoveToEnd(dest, colonPos, j);
  }

  /** What follows the loop. */
  method Complete(dest: array<Byte>, filled: nat, colonPos: int, haveSeenHex: bool, val: nat,
      ghost r: Reading, ghost was: seq<Byte>)
    returns (ok: bool, ghost left: seq<seq<char>>, ghost right: seq<seq<char>>)
    requires Sound(r) && Holds(r, filled, colonPos, haveSeenHex, val)
    requires 16 <= dest.Length == |was| && dest[..] == Bytes(r.groups) + was[filled..]
    modifies dest
    ensures ok <==> Finish(r).Some?
    ensures ok ==> Finish(r) == Some((left, right))
    ensures ok ==> |left| + |right| <= 8 && AllGroups(left) && AllGroups(right) && dest[..] == Placed(was, left, right)
  {
    left, right := [], [];
    var j;
    ghost var all;
    ok, j, all := FlushGroup(dest, filled, haveSeenHex, val, r, was);
    FinishIs(r, all);
    if !ok {
      return;
    }
    assert Holds(r, filled, colonPos, haveSeenHex, val);
    hide *;
    if colonPos != -1 {
      if j == 16 {
        return false, [], [];
      }
      MoveRight(dest, colonPos, j, all, r.gap, was);
      left, right := all[..r.gap], all[r.gap..];
      j := 16;
    } else if j == 16 {
      AllIsPlaced(was, all);
      left, right := all, [];
    }
    ok := j == 16;
  }

  lemma {:induction false} BytesSplit(gs: seq<seq<char>>, k: nat)
    requires AllGroups(gs) && k <= |gs|
    ensures AllGroups(gs[..k]) && AllGroups(gs[k..]) && Bytes(gs) == Bytes(gs[..k]) + Bytes(gs[k..])
    decreases |gs|
  {
    hide *;
    if k == |gs| {
      assert gs[..k] == gs && gs[k..] == [];
      NoBytes();
    } else {
      var front, last := gs[..|gs| - 1], gs[|gs| - 1];
      GroupsEnd(gs);
      BytesSplit(front, k);
      assert front[..k] == gs[..k] && gs[k..] == front[k..] + [last];
      BytesSnoc(front[k..], last);
      Regroup(Bytes(front[..k]), Bytes(front[k..]), GroupBytes(last));
    }
  }

  lemma NoBytes()
    ensures AllGroups([]) && Bytes([]) == []
  {
  }

  lemma GroupsEnd(gs: seq<seq<char>>)
    requires AllGroups(gs) && gs != []
    ensures var front, last := gs[..|gs| - 1], gs[|gs| - 1];
      AllGroups(front) && IsGroup(last) && gs == front + [last] && Bytes(gs) == Bytes(front) + GroupBytes(last)
  {
    hide IsGroup;
  }

  lemma MovedHalves(a: seq<Byte>, b: seq<Byte>, c: nat, j: nat, to: nat, both: seq<Byte>, was: seq<Byte>)
    requires c == |a| && j == |a| + |b| < 16 <= |was| && to == 16 - |b| && both == a + b
    ensures var before := both + was[j..];
      before[..c] + Between(before, c, to, j) + before[c..j] + before[16..] == a + Between(was, c, to, j) + b + was[16..]
  {
    hide Between;
    Cut(a, b, was);
    BetweenAgree(both + was[j..], was, c, to, j);
  }

  lemma MovedIsPlaced(was: seq<Byte>, all: seq<seq<char>>, gap: nat, c: nat, j: nat, to: nat)
    requires |was| >= 16 && AllGroups(all) && gap <= |all| < 8
    requires c == 2 * gap && j == 2 * |all| && to == 16 - (j - c)
    ensures AllGroups(all[..gap]) && AllGroups(all[gap..])
    ensures var before := Bytes(all) + was[j..];
      before[..c] + Between(before, c, to, j) + before[c..j] + before[16..] == Placed(was, all[..gap], all[gap..])
  {
    hide AllGroups, Between, Bytes;
    BytesSplit(all, gap);
    MovedHalves(Bytes(all[..gap]), Bytes(all[gap..]), c, j, to, Bytes(all), was);
    var left, right := all[..gap], all[gap..];
    assert 2 * |left| == c && 16 - 2 * |right| == to && 2 * |left| + 2 * |right| == j;
  }

  lemma Cut(a: seq<Byte>, b: seq<Byte>, was: seq<Byte>)
    requires |a| + |b| <= 16 <= |was|
    ensures var before := a + b + was[|a| + |b|..];
      && |before| == |was| && before[..|a|] == a && before[|a|..|a| + |b|] == b && before[16..] == was[16..]
      && forall k :: |a| + |b| <= k < |was| ==> before[k] == was[k]
  {
  }

  lemma BetweenAgree(x: seq<Byte>, y: seq<Byte>, from: nat, to: nat, filled: nat)
    requires |x| == |y| && from <= to <= |x| && forall k :: filled <= k < |x| ==> x[k] == y[k]
    ensures Between(x, from, to, filled) == Between(y, from, to, filled)
  {
    hide Between;
  }

  lemma AllIsPlaced(was: seq<Byte>, all: seq<seq<char>>)
    requires |was| >= 16 && AllGroups(all) && |all| == 8
    ensures AllGroups([]) && Placed(was, all, []) == Bytes(all) + was[16..]
  {
    assert Bytes([]) == [];
    assert Between(was, 16, 16, 16) == [];
  }

  /** A text is read exactly when, without its zone, it stands for an address, and then the
      sixteen bytes are that address exactly when those the second half skips were zero. */
  lemma ReadIsExact(src: seq<char>, was: seq<Byte>)
    requires |was| >= 16
    ensures Read(src).Some? <==> Unzoned(src).Some? && exists address :: Denotes(Unzoned(src).value, address)
    ensures Read(src).Some? ==>
      var left, right := Read(src).value.0, Read(src).value.1;
      |left| + |right| <= 8 && AllGroups(left) && AllGroups(right) &&
      (Denotes(Unzoned(src).value, Placed(was, left, right)[..16]) <==>
         forall p :: 2 * (|left| + |right|) <= p < 16 - 2 * |right| ==> was[p] == 0)
  {
    if Unzoned(src).Some? {
      var t := Unzoned(src).value;
      ParseIsExact(t);
      if Parse(t).Some? {
        var left, right := Parse(t).value.0, Parse(t).value.1;
        var address :| Denotes(t, address);
        PlacedIsExpanded(was, left, right);
        hide Parse, Denotes, Placed;
      }
    }
  }

  method Ipv6AddrStringToBinary(src: seq<char>, dest: array<Byte>) returns (ok: bool)
    requires dest.Length >= 16
    modifies dest
    ensures ok <==> Unzoned(src).Some? && exists address :: Denotes(Unzoned(src).value, address)
    ensures ok && (forall p :: 0 <= p < 16 ==> old(dest[..])[p] == 0) ==> Denotes(Unzoned(src).value, dest[..16])
    ensures ok ==> Read(src).Some? && var (left, right) := Read(src).value;
      |left| + |right| <= 8 && AllGroups(left) && AllGroups(right)
      && dest[..] == Placed(old(dest[..]), left, right)
  {
    ReadIsExact(src, dest[..]);
    ok := Convert(src, dest);
    hide *;
    assert dest[..][..16] == dest[..16];
  }

  method Convert(src: seq<char>, dest: array<Byte>) returns (ok: bool)
    requires dest.Length >= 16
    modifies dest
    ensures ok <==> Read(src).Some?
    ensures ok ==> var (left, right) := Read(src).value;
      |left| + |right| <= 8 && AllGroups(left) && AllGroups(right)
      && dest[..] == Placed(old(dest[..]), left, right)
  {
    hide *;
    var srcLen := |src|;
    if srcLen < 2 {
      TooShort(src);
      return false;
    }
    ReadBegins(src);
    var percentIndex := PercentIndex(src);
    if percentIndex == srcLen - 1 {
      return false;
    }
    if percentIndex != -1 {
      srcLen := percentIndex;
    }
    var t := src[..srcLen];
    var i := 0;
    if src[i] == ':' {
      i := i + 1;
      if src[i] != ':' {
        return false;
      }
    }
    var fine, j, colonPos, haveSeenHex, val, r := ReadCharacters(t, i, dest);
    if !fine {
      return false;
    }
    ghost var left, right;
    ok, left, right := Complete(dest, j, colonPos, haveSeenHex, val, r, old(dest[..]));
  }

  /** The tests in front of the character loop. */
  lemma ReadBegins(src: seq<char>)
    requires |src| >= 2
    ensures var p := PercentIndex(src);
      -1 <= p < |src| && (p == |src| - 1 || (src[0] == ':' && src[1] != ':') ==> Read(src) == None)
    ensures var p := PercentIndex(src);
      var t := src[..if p == -1 then |src| else p];
      var i := if src[0] == ':' then 1 else 0;
      p != |src| - 1 && (src[0] == ':' ==> src[1] == ':') ==>
        i <= |t| && Read(src) == match Run(START, t[i..]) case None => None case Some(r) => Finish(r)
  {
    var p := PercentIndex(src);
    var t := src[..if p == -1 then |src| else p];
    if p != |src| - 1 {
      assert Unzoned(src) == Some(t) by {
        assert p == -1 ==> t == src;
      }
      assert t[0..] == t;
      assert src[0] == ':' && p != -1 ==> p != 0;
    }
    hide Run, Finish, PercentIndex, Unzoned;
  }

  /** "::1" is accepted, but over bytes that were not zero it leaves another address. */
  method UnzeroedDeparts(dest: array<Byte>) returns (ok: bool)
    requires dest.Length >= 16 && dest[2] != 0
    modifies dest
    ensures ok && !Denotes("::1", dest[..16])
  {
    LoopbackIsRead();
    ReadIsExact("::1", dest[..]);
    ok := Ipv6AddrStringToBinary("::1", dest);
  }

  lemma LoopbackIsRead()
    ensures Unzoned("::1") == Some("::1") && Read("::1") == Some(([], ["1"]))
  {
    assert IsGroup("1");
    assert Join([]) + "::" + Join(["1"]) == "::1";
    Form2IsParsed("::1", [], ["1"]);
    assert '%' !in "::1";
  }

  // ---- Addresses written from numbers ----

  /** The zone of an address (section 11 of RFC 4007) is dropped, and may not be empty. */
  lemma ZoneIsDropped(t: seq<char>, zone: seq<char>)
    requires '%' !in t
    ensures Unzoned(t) == Some(t) && Unzoned(t + "%") == None
    ensures zone != [] ==> Unzoned(t + "%" + zone) == Some(t)
  {
    FirstPercent(t, []);
    FirstPercent(t, zone);
    assert t + "%" + [] == t + "%";
    assert (t + "%" + zone)[..|t|] == t;
    hide PercentIndex;
  }

  lemma {:induction false} FirstPercent(t: seq<char>, zone: seq<char>)
    requires '%' !in t
    ensures PercentIndex(t + "%" + zone) == |t|
  {
    var s := t + "%" + zone;
    if t == [] {
      assert s[0] == '%';
    } else {
      assert s[0] == t[0] && s[1..] == t[1..] + "%" + zone;
      FirstPercent(t[1..], zone);
    }
  }

  ghost predicate Bits16(ns: seq<nat>) {
    forall k :: 0 <= k < |ns| ==> ns[k] < 65536
  }

  /** The numbers in hexadecimal with a colon between each two. */
  function WithColons(ns: seq<nat>, upper: bool): seq<char> {
    if ns == [] then ""
    else if |ns| == 1 then Numeral(ns[0], 16, upper)
    else Numeral(ns[0], 16, upper) + ":" + WithColons(ns[1..], upper)
  }

  function HexGroups(ns: seq<nat>, upper: bool): (gs: seq<seq<char>>)
    ensures |gs| == |ns| && forall k :: 0 <= k < |ns| ==> gs[k] == Numeral(ns[k], 16, upper)
  {
    if ns == [] then [] else [Numeral(ns[0], 16, upper)] + HexGroups(ns[1..], upper)
  }

  lemma HexGroupsAre(ns: seq<nat>, upper: bool)
    requires Bits16(ns)
    ensures AllGroups(HexGroups(ns, upper))
  {
    hide Numeral, IsGroup;
    forall k | 0 <= k < |ns| ensures IsGroup(HexGroups(ns, upper)[k]) {
      OneHexGroup(ns[k], upper);
    }
  }

  lemma OneHexGroup(n: nat, upper: bool)
    requires n < 65536
    ensures var g := Numeral(n, 16, upper);
      IsGroup(g) && GroupBytes(g) == [n / 256, n % 256] && forall k :: 0 <= k < |g| ==> g[k] != '%' && g[k] != ':'
  {
    hide Numeral, Value;
    ValueOfNumeral(n, 16, upper);
    assert CharValue('%') == CharValue(':') == -1;
    var g := Numeral(n, 16, upper);
    forall k | 0 <= k < |g| ensures g[k] != '%' && g[k] != ':' {
      assert IsDigit(g[k], 16);
    }
  }

  lemma {:induction false} HexJoined(ns: seq<nat>, upper: bool)
    requires Bits16(ns)
    ensures Join(HexGroups(ns, upper)) == WithColons(ns, upper) && '%' !in WithColons(ns, upper)
  {
    if ns != [] {
      hide Numeral, IsGroup, GroupBytes;
      OneHexGroup(ns[0], upper);
      HexJoined(ns[1..], upper);
      assert HexGroups(ns, upper)[1..] == HexGroups(ns[1..], upper);
    }
  }

  /** From octet `at` on, the numbers stand there in two octets each, high octet first. */
  ghost predicate StoredAt(b: seq<Byte>, at: nat, ns: seq<nat>) {
    && at + 2 * |ns| <= |b|
    && forall k :: 0 <= k < |ns| ==> b[at + 2 * k] == ns[k] / 256 && b[at + 2 * k + 1] == ns[k] % 256
  }

  lemma StoredSnoc(b: seq<Byte>, front: seq<nat>, last: nat)
    requires |b| == 2 * |front| && StoredAt(b, 0, front) && last < 65536
    ensures StoredAt(b + [last / 256, last % 256], 0, front + [last])
  {
    var c, ns := b + [last / 256, last % 256], front + [last];
    forall k | 0 <= k < |ns| ensures c[2 * k] == ns[k] / 256 && c[2 * k + 1] == ns[k] % 256 {
      assert k < |front| ==> c[2 * k] == b[2 * k] && c[2 * k + 1] == b[2 * k + 1];
    }
  }

  lemma StoredWithin(a: seq<Byte>, b: seq<Byte>, c: seq<Byte>, ns: seq<nat>)
    requires StoredAt(b, 0, ns)
    ensures StoredAt(a + b + c, |a|, ns)
  {
    var all := a + b + c;
    forall k | 0 <= k < |ns| ensures all[|a| + 2 * k] == ns[k] / 256 && all[|a| + 2 * k + 1] == ns[k] % 256 {
      assert all[|a| + 2 * k] == b[2 * k] && all[|a| + 2 * k + 1] == b[2 * k + 1];
    }
  }

  lemma NothingStored(gs: seq<seq<char>>, ns: seq<nat>)
    requires |gs| == |ns| == 0
    ensures gs == [] && StoredAt([], 0, ns)
  {
  }

  lemma HexFront(ns: seq<nat>, upper: bool)
    requires Bits16(ns) && ns != []
    ensures var front, last := ns[..|ns| - 1], ns[|ns| - 1];
      && Bits16(front) && last < 65536 && ns == front + [last]
      && HexGroups(ns, upper)[..|ns| - 1] == HexGroups(front, upper)
      && HexGroups(ns, upper)[|ns| - 1] == Numeral(last, 16, upper)
  {
    var front := ns[..|ns| - 1];
    assert Bits16(front);
    var gs, fs := HexGroups(ns, upper), HexGroups(front, upper);
    assert forall k :: 0 <= k < |front| ==> gs[k] == fs[k];
    hide *;
    SameFront(gs, fs);
    SameFront(ns, front);
  }

  lemma SameFront<T>(s: seq<T>, front: seq<T>)
    requires |s| == |front| + 1 && forall k :: 0 <= k < |front| ==> s[k] == front[k]
    ensures s[..|front|] == front && s == front + [s[|front|]]
  {
  }

  lemma {:induction false} HexBytes(ns: seq<nat>, upper: bool)
    requires Bits16(ns) && AllGroups(HexGroups(ns, upper))
    ensures StoredAt(Bytes(HexGroups(ns, upper)), 0, ns) && |Bytes(HexGroups(ns, upper))| == 2 * |ns|
    decreases |ns|
  {
    hide *;
    if ns == [] {
      NoBytes();
      NothingStored(HexGroups(ns, upper), ns);
    } else {
      var front, last := ns[..|ns| - 1], ns[|ns| - 1];
      HexFront(ns, upper);
      GroupsEnd(HexGroups(ns, upper));
      OneHexGroup(last, upper);
      HexBytes(front, upper);
      StoredSnoc(Bytes(HexGroups(front, upper)), front, last);
    }
  }

  /** The address text of the numbers: all eight, or those on the two sides of a "::". */
  function AddressText(left: seq<nat>, gap: bool, right: seq<nat>, upper: bool): seq<char> {
    if gap then WithColons(left, upper) + "::" + WithColons(right, upper) else WithColons(left, upper)
  }

  ghost predicate Writable(left: seq<nat>, gap: bool, right: seq<nat>) {
    && Bits16(left) && Bits16(right)
    && if gap then |left| + |right| <= 7 else |left| == 8 && right == []
  }

  lemma AddressTextIsRead(left: seq<nat>, gap: bool, right: seq<nat>, upper: bool)
    requires Writable(left, gap, right)
    ensures var t, ls, rs := AddressText(left, gap, right, upper), HexGroups(left, upper), HexGroups(right, upper);
      && '%' !in t && AllGroups(ls) && AllGroups(rs) && |ls| + |rs| <= 8
      && Parse(t) == Some((ls, rs)) && Denotes(t, Expanded(ls, rs))
  {
    hide WithColons, HexGroups, IsGroup, AllGroups, Join, Parse, Bits16;
    var t, ls, rs := AddressText(left, gap, right, upper), HexGroups(left, upper), HexGroups(right, upper);
    HexGroupsAre(left, upper);
    HexGroupsAre(right, upper);
    HexJoined(left, upper);
    HexJoined(right, upper);
    if gap {
      assert Form2(t, ls, rs);
      Form2IsParsed(t, ls, rs);
    } else {
      assert rs == [];
      assert Form1(t, ls);
      Form1IsParsed(t, ls);
      NoBytes();
      assert Expanded(ls, rs) == Bytes(ls);
    }
  }

  /** Every number of 16 bits is stored as its two octets, high octet first: those in front of a
      "::" at the front, those behind it at the end, and zeros between them. A zone changes
      nothing. */
  method StoresNumbers(left: seq<nat>, gap: bool, right: seq<nat>, upper: bool, zone: seq<char>, dest: array<Byte>)
    returns (ok: bool)
    requires Writable(left, gap, right) && dest.Length >= 16 && forall p :: 0 <= p < 16 ==> dest[p] == 0
    modifies dest
    ensures ok && dest[16..] == old(dest[16..]) && |left| + |right| <= 8
    ensures StoredAt(dest[..], 0, left) && StoredAt(dest[..], 16 - 2 * |right|, right)
    ensures forall p :: 2 * |left| <= p < 16 - 2 * |right| ==> dest[p] == 0
  {
    hide *;
    var t := AddressText(left, gap, right, upper);
    var src := if zone == [] then t else t + "%" + zone;
    ghost var was := dest[..];
    ghost var ls, rs := HexGroups(left, upper), HexGroups(right, upper);
    AddressTextIsRead(left, gap, right, upper);
    ZoneIsDropped(t, zone);
    ReadUnzoned(src, t);
    ok := Ipv6AddrStringToBinary(src, dest);
    PlacedIsExpanded(was, ls, rs);
    PlacedBehind(was, ls, rs);
    WritableBits(left, gap, right);
    ExpandedIs(left, right, upper);
    assert dest[..][..16] == dest[..16] && dest[..][16..] == dest[16..];
    assert dest[..] == [] + dest[..16] + dest[16..];
    StoredFront(dest[..16], dest[16..], 0, left);
    StoredFront(dest[..16], dest[16..], 16 - 2 * |right|, right);
    assert forall p :: 0 <= p < 16 ==> dest[p] == dest[..16][p];
  }

  lemma StoredFront(a: seq<Byte>, b: seq<Byte>, at: nat, ns: seq<nat>)
    requires StoredAt(a, at, ns)
    ensures StoredAt(a + b, at, ns)
  {
  }

  lemma WritableBits(left: seq<nat>, gap: bool, right: seq<nat>)
    requires Writable(left, gap, right)
    ensures Bits16(left) && Bits16(right) && |left| + |right| <= 8
  {
  }

  lemma ReadUnzoned(src: seq<char>, t: seq<char>)
    requires Unzoned(src) == Some(t)
    ensures Read(src) == Parse(t)
  {
  }

  lemma PlacedBehind(was: seq<Byte>, left: seq<seq<char>>, right: seq<seq<char>>)
    requires |was| >= 16 && |left| + |right| <= 8 && AllGroups(left) && AllGroups(right)
    ensures Placed(was, left, right)[16..] == was[16..]
  {
    hide AllGroups, Between;
  }

  lemma ExpandedIs(left: seq<nat>, right: seq<nat>, upper: bool)
    requires Bits16(left) && Bits16(right) && |left| + |right| <= 8
    requires AllGroups(HexGroups(left, upper)) && AllGroups(HexGroups(right, upper))
    ensures var a := Expanded(HexGroups(left, upper), HexGroups(right, upper));
      && StoredAt(a, 0, left) && StoredAt(a, 16 - 2 * |right|, right)
      && (forall p :: 2 * |left| <= p < 16 - 2 * |right| ==> a[p] == 0)
  {
    hide *;
    var ls, rs := HexGroups(left, upper), HexGroups(right, upper);
    HexBytes(left, upper);
    HexBytes(right, upper);
    var x, y, z := Bytes(ls), Zeros(16 - 2 * (|left| + |right|)), Bytes(rs);
    ExpandedParts(ls, rs);
    StoredWithin([], x, y + z, left);
    StoredWithin(x + y, z, [], right);
    ThreeParts(x, y, z);
  }

  lemma ThreeParts(x: seq<Byte>, y: seq<Byte>, z: seq<Byte>)
    ensures [] + x + (y + z) == x + y + z && x + y + z + [] == x + y + z
    ensures forall p :: |x| <= p < |x| + |y| ==> (x + y + z)[p] == y[p - |x|]
  {
  }

  lemma ExpandedParts(ls: seq<seq<char>>, rs: seq<seq<char>>)
    requires |ls| + |rs| <= 8 && AllGroups(ls) && AllGroups(rs)
    ensures Expanded(ls, rs) == Bytes(ls) + Zeros(16 - 2 * (|ls| + |rs|)) + Bytes(rs)
  {
  }
}
