/** The command pattern `^#hz\s+(.+?)\s+(\d+)$` of the grey-text handler, matched the
    way Python's backtracking `re` engine matches it.

    A match cuts the message at four positions `p1 < p2 < p3 < p4`:
    `#hz`, whitespace `[3, p1)`, the content group `[p1, p2)`, whitespace `[p2, p3)`,
    the digit group `[p3, p4)`, and `$` at `p4`. The engine tries the greedy first
    `\s+` longest first and, for each of its lengths, the lazy `(.+?)` shortest first,
    so of all the ways to cut a message it reports the one with the largest `p1` and,
    for that `p1`, the smallest `p2`. */
module Command {
  import opened Wrappers
  import opened Text

  const Prefix := "#hz"

  predicate HasPrefix(s: string) {
    |s| >= 3 && s[..3] == Prefix
  }

  predicate AllSpace(s: string, i: int, j: int)
    requires 0 <= i <= j <= |s|
  {
    forall k :: i <= k < j ==> IsSpace(s[k])
  }

  /** `.` matches every character except a newline. */
  predicate NoNewline(s: string, i: int, j: int)
    requires 0 <= i <= j <= |s|
  {
    forall k :: i <= k < j ==> s[k] != '\n'
  }

  predicate AllDigit(s: string, i: int, j: int)
    requires 0 <= i <= j <= |s|
  {
    forall k :: i <= k < j ==> IsDigit(s[k])
  }

  /** `$` without MULTILINE: the end of the string, or just before a newline that ends it. */
  predicate AtEnd(s: string, p: int) {
    p == |s| || (0 <= p && p == |s| - 1 && s[p] == '\n')
  }

  /** `\s+(\d+)$` matches from `p2`, with the whitespace ending at `p3` and the digits at `p4`. */
  predicate TailAt(s: string, p2: int, p3: int, p4: int) {
    && 0 <= p2 < p3 < p4 <= |s|
    && AllSpace(s, p2, p3)
    && AllDigit(s, p3, p4)
    && AtEnd(s, p4)
  }

  /** `(.+?)` can span `[p1, p2)`. */
  predicate ContentAt(s: string, p1: int, p2: int) {
    0 <= p1 < p2 <= |s| && NoNewline(s, p1, p2)
  }

  datatype Split = Split(p1: nat, p2: nat, p3: nat, p4: nat)

  /** `sp` is one way for the whole pattern to match `s`. */
  predicate IsSplit(s: string, sp: Split) {
    && HasPrefix(s)
    && 3 < sp.p1 <= |s|
    && AllSpace(s, 3, sp.p1)
    && ContentAt(s, sp.p1, sp.p2)
    && TailAt(s, sp.p2, sp.p3, sp.p4)
  }

  /** `a` is tried by the engine before `b`. */
  predicate Before(a: Split, b: Split) {
    a.p1 > b.p1 || (a.p1 == b.p1 && a.p2 < b.p2)
  }

  /** End of the longest run of characters satisfying `p` that starts at `i`. */
  function RunEnd(s: string, i: nat, p: char -> bool): (r: nat)
    requires i <= |s|
    ensures i <= r <= |s|
    ensures forall k :: i <= k < r ==> p(s[k])
    ensures r == |s| || !p(s[r])
    decreases |s| - i
  {
    if i == |s| || !p(s[i]) then i else RunEnd(s, i + 1, p)
  }

  /** A tail match is the longest whitespace run followed by the longest digit run. */
  lemma TailIsRuns(s: string, p2: nat, p3: int, p4: int)
    requires TailAt(s, p2, p3, p4)
    ensures p3 == RunEnd(s, p2, IsSpace) && p4 == RunEnd(s, p3, IsDigit)
  {
  }

  /** Whitespace and digits are disjoint, so the tail of a match is fixed by where it starts. */
  lemma TailUnique(s: string, p2: int, p3: int, p4: int, q3: int, q4: int)
    requires TailAt(s, p2, p3, p4) && TailAt(s, p2, q3, q4)
    ensures p3 == q3 && p4 == q4
  {
    TailIsRuns(s, p2, p3, p4);
    TailIsRuns(s, p2, q3, q4);
  }

  /** The greedy `\s+(\d+)$` from `p2`: the whitespace run, then the digit run, then `$`. */
  function MatchTail(s: string, p2: nat): (r: Option<(nat, nat)>)
    requires p2 <= |s|
    ensures r.Some? ==> TailAt(s, p2, r.value.0, r.value.1)
    ensures forall p3, p4 :: TailAt(s, p2, p3, p4) ==> r == Some((p3, p4))
  {
    assert forall p3, p4 :: TailAt(s, p2, p3, p4) ==>
        p3 == RunEnd(s, p2, IsSpace) && p4 == RunEnd(s, p3, IsDigit) by {
      forall p3, p4 | TailAt(s, p2, p3, p4)
        ensures p3 == RunEnd(s, p2, IsSpace) && p4 == RunEnd(s, p3, IsDigit)
      {
        TailIsRuns(s, p2, p3, p4);
      }
    }
    var p3 := RunEnd(s, p2, IsSpace);
    if p3 == p2 then
      None
    else
      var p4 := RunEnd(s, p3, IsDigit);
      if p4 > p3 && AtEnd(s, p4) then Some((p3, p4)) else None
  }

  /** The lazy `(.+?)` from `p1`, trying the content end `p2` and then each later one. */
  function MatchLazy(s: string, p1: nat, p2: nat): (r: Option<Split>)
    requires p1 < p2 <= |s| && NoNewline(s, p1, p2 - 1)
    ensures r.Some? ==> r.value.p1 == p1 && p2 <= r.value.p2
                        && ContentAt(s, p1, r.value.p2) && TailAt(s, r.value.p2, r.value.p3, r.value.p4)
    ensures forall q2, q3, q4 :: p2 <= q2 && ContentAt(s, p1, q2) && TailAt(s, q2, q3, q4) ==>
              r.Some? && r.value.p2 <= q2
    decreases |s| - p2
  {
    if s[p2 - 1] == '\n' then
      None
    else
      match MatchTail(s, p2)
      case Some(t) => Some(Split(p1, p2, t.0, t.1))
      case None => if p2 < |s| then MatchLazy(s, p1, p2 + 1) else None
  }

  /** The greedy first `\s+`, ending at `p1` and then at each earlier position. */
  function MatchGreedy(s: string, p1: nat): (r: Option<Split>)
    requires HasPrefix(s) && 3 < p1 <= |s| && AllSpace(s, 3, p1)
    ensures r.Some? ==> IsSplit(s, r.value) && r.value.p1 <= p1
    ensures forall sp :: IsSplit(s, sp) && sp.p1 <= p1 ==>
              r.Some? && (sp == r.value || Before(r.value, sp))
    decreases p1
  {
    var here := if p1 < |s| then MatchLazy(s, p1, p1 + 1) else None;
    if here.Some? then
      assert forall sp :: IsSplit(s, sp) && sp.p1 == p1 && sp.p2 == here.value.p2 ==> sp == here.value by {
        forall sp | IsSplit(s, sp) && sp.p1 == p1 && sp.p2 == here.value.p2
          ensures sp == here.value
        {
          TailUnique(s, sp.p2, sp.p3, sp.p4, here.value.p3, here.value.p4);
        }
      }
      here
    else if p1 > 4 then
      MatchGreedy(s, p1 - 1)
    else
      None
  }

  /** `re.match` of the command pattern: the first way to cut `s` that the engine finds. */
  function Match(s: string): (r: Option<Split>)
    ensures r.Some? ==> IsSplit(s, r.value)
    ensures r.Some? ==> forall sp :: IsSplit(s, sp) ==> sp == r.value || Before(r.value, sp)
    ensures r.None? ==> forall sp :: !IsSplit(s, sp)
  {
    if !HasPrefix(s) then
      None
    else
      var w := RunEnd(s, 3, IsSpace);
      if w == 3 then None else MatchGreedy(s, w)
  }

  /** A way to cut `s` that no other way comes before is the one the engine reports. */
  lemma MatchIsFirstSplit(s: string, sp: Split)
    requires IsSplit(s, sp)
    requires forall other :: IsSplit(s, other) ==> !Before(other, sp)
    ensures Match(s) == Some(sp)
  {
  }

  /** The two groups of a match: the grey-text content and the target group's digits. */
  datatype Command = Command(content: string, digits: string)

  /** A non-empty run of whitespace. */
  predicate IsWhitespace(w: string) {
    |w| > 0 && AllSpace(w, 0, |w|)
  }

  /** What group 1 and group 2 can hold: content non-empty without a newline, digits non-empty. */
  predicate ValidCommand(c: Command) {
    && |c.content| > 0
    && NoNewline(c.content, 0, |c.content|)
    && |c.digits| > 0
    && IsDigits(c.digits)
  }

  /** `pattern.match(msg)` followed by `match.group(1)` and `match.group(2)`. */
  function Parse(s: string): (r: Option<Command>)
    ensures r.Some? ==> ValidCommand(r.value)
    ensures r.Some? <==> exists sp :: IsSplit(s, sp)
  {
    match Match(s)
    case None => None
    case Some(sp) => Some(Command(s[sp.p1..sp.p2], s[sp.p3..sp.p4]))
  }

  /** `int(match.group(2))`, for a digit string short enough that `int` returns. */
  function GroupId(c: Command): nat
    requires ValidCommand(c)
  {
    DecimalValue(c.digits)
  }

  /** A split cuts the message into `#hz`, whitespace, the content, whitespace, the digits,
      and at most one final newline. */
  lemma SplitShape(s: string, sp: Split)
    requires IsSplit(s, sp)
    ensures IsWhitespace(s[3..sp.p1]) && IsWhitespace(s[sp.p2..sp.p3])
    ensures s[sp.p4..] == "" || s[sp.p4..] == "\n"
    ensures s == Prefix + s[3..sp.p1] + s[sp.p1..sp.p2] + s[sp.p2..sp.p3] + s[sp.p3..sp.p4] + s[sp.p4..]
  {
    var ws1, content, ws2, digits, nl := s[3..sp.p1], s[sp.p1..sp.p2], s[sp.p2..sp.p3], s[sp.p3..sp.p4], s[sp.p4..];
    assert forall k :: 0 <= k < |ws1| ==> ws1[k] == s[3 + k];
    assert forall k :: 0 <= k < |ws2| ==> ws2[k] == s[sp.p2 + k];
    assert s[..sp.p1] == Prefix + ws1;
    assert s[..sp.p2] == Prefix + ws1 + content;
    assert s[..sp.p3] == Prefix + ws1 + content + ws2;
    assert s[..sp.p4] == Prefix + ws1 + content + ws2 + digits;
    assert s == s[..sp.p4] + nl;
  }

  /** A matched message is `#hz`, whitespace, the content, whitespace, the digits, and
      at most one final newline (the one `$` may stand before). */
  lemma ParseShape(s: string)
    requires Parse(s).Some?
    ensures var c := Parse(s).value;
      exists ws1, ws2, nl :: IsWhitespace(ws1) && IsWhitespace(ws2) && (nl == "" || nl == "\n")
                            && s == Prefix + ws1 + c.content + ws2 + c.digits + nl
  {
    var sp := Match(s).value;
    SplitShape(s, sp);
    var ws1, ws2, nl := s[3..sp.p1], s[sp.p2..sp.p3], s[sp.p4..];
    assert s == Prefix + ws1 + Parse(s).value.content + ws2 + Parse(s).value.digits + nl;
  }

  /** Every message of that shape matches (though the groups it reports may cut it
      differently: the engine prefers the longest leading whitespace, then the shortest content). */
  lemma ParseComplete(ws1: string, content: string, ws2: string, digits: string, nl: string)
    requires IsWhitespace(ws1) && IsWhitespace(ws2) && (nl == "" || nl == "\n")
    requires ValidCommand(Command(content, digits))
    ensures Parse(Prefix + ws1 + content + ws2 + digits + nl).Some?
  {
    var s := Prefix + ws1 + content + ws2 + digits + nl;
    var p1 := 3 + |ws1|;
    var p2 := p1 + |content|;
    var p3 := p2 + |ws2|;
    var p4 := p3 + |digits|;
    assert s[..3] == Prefix;
    assert s[3..p1] == ws1 && s[p1..p2] == content && s[p2..p3] == ws2 && s[p3..p4] == digits && s[p4..] == nl;
    assert IsSplit(s, Split(p1, p2, p3, p4));
  }

  /** The content never ends in whitespace unless it is a single character: a content
      one character shorter would have matched first. */
  lemma ContentEndsTrimmed(s: string)
    requires Parse(s).Some? && |Parse(s).value.content| > 1
    ensures var c := Parse(s).value.content; !IsSpace(c[|c| - 1])
  {
    var sp := Match(s).value;
    if IsSpace(s[sp.p2 - 1]) {
      var earlier := Split(sp.p1, sp.p2 - 1, sp.p3, sp.p4);
      assert IsSplit(s, earlier);
    }
  }
}
