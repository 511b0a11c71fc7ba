/** Worked examples of the handler on concrete messages and endpoint answers. */
module Scenarios {
  import opened Wrappers
  import opened Text
  import opened Command
  import opened Packet
  import opened Connection
  import opened Dispatch

  /** The lazy content group stops at the first cut that lets the rest match: the
      content keeps inner spaces and digits, and only the last digit run is the group. */
  lemma LazyContentKeepsInnerDigits()
    ensures Parse("#hz a 1 2") == Some(Command("a 1", "2"))
  {
    var s := "#hz a 1 2";
    assert RunEnd(s, 3, IsSpace) == 4;
    assert MatchTail(s, 5) == None;
    assert MatchTail(s, 6) == None;
    assert MatchTail(s, 7) == Some((8, 9));
    assert MatchLazy(s, 4, 5) == Some(Split(4, 7, 8, 9));
    assert MatchGreedy(s, 4) == Some(Split(4, 7, 8, 9));
    assert Match(s) == Some(Split(4, 7, 8, 9));
    assert s[4..7] == "a 1" && s[8..9] == "2";
  }

  /** Leading whitespace is given back to the content when nothing else can match:
      `#hz`, four spaces and `5` carries a single space as content. */
  lemma WhitespaceBacktracksIntoContent()
    ensures Parse("#hz    5") == Some(Command(" ", "5"))
  {
    var s := "#hz    5";
    assert RunEnd(s, 3, IsSpace) == 7;
    assert MatchTail(s, 8) == None;
    assert MatchLazy(s, 7, 8) == None;
    assert MatchGreedy(s, 7) == MatchGreedy(s, 6);
    assert MatchTail(s, 7) == None;
    assert MatchLazy(s, 6, 7) == None;
    assert MatchGreedy(s, 6) == MatchGreedy(s, 5);
    assert MatchTail(s, 6) == Some((7, 8));
    assert MatchLazy(s, 5, 6) == Some(Split(5, 6, 7, 8));
    assert Match(s) == Some(Split(5, 6, 7, 8));
    assert s[5..6] == " " && s[7..8] == "5";
  }

  /** The bare command word does not match and gets the format error, with no call. */
  lemma BareCommandIsFormatError(outcomes: seq<Outcome>)
    requires |outcomes| >= MaxCalls
    ensures SendGrey(Invocation(true, "#hz", OtherEvent, []), outcomes) == [Reply(FormatErrorReply)]
  {
    assert !HasPrefix("#hz") || RunEnd("#hz", 3, IsSpace) == 3;
  }

  /** No way to cut `#hz hello 123456789` comes before the obvious one. */
  lemma HelloHasNoEarlierSplit(s: string, sp: Split)
    requires s == "#hz hello 123456789" && sp == Split(4, 9, 10, 19)
    ensures forall other :: IsSplit(s, other) ==> !Before(other, sp)
  {
    forall other | IsSplit(s, other)
      ensures !Before(other, sp)
    {
      assert IsSpace(s[other.p2]);
      assert other.p1 > 4 ==> IsSpace(s[4]);
    }
  }

  lemma NineDigits(d: string)
    requires d == "123456789"
    ensures IsDigits(d) && DecimalValue(d) == 123456789
  {
    assert DecimalValue(d[..1]) == 1;
    assert d[..2][..1] == d[..1];
    assert DecimalValue(d[..2]) == 12;
    assert d[..3][..2] == d[..2];
    assert DecimalValue(d[..3]) == 123;
    assert d[..4][..3] == d[..3];
    assert DecimalValue(d[..4]) == 1234;
    assert d[..5][..4] == d[..4];
    assert DecimalValue(d[..5]) == 12345;
    assert d[..6][..5] == d[..5];
    assert DecimalValue(d[..6]) == 123456;
    assert d[..7][..6] == d[..6];
    assert DecimalValue(d[..7]) == 1234567;
    assert d[..8][..7] == d[..7];
    assert DecimalValue(d[..8]) == 12345678;
    assert d[..9][..8] == d[..8];
    assert DecimalValue(d[..9]) == 123456789;
    assert d[..9] == d;
  }

  /** `#hz hello 123456789` carries content `hello` for group `123456789`. */
  lemma HelloParses(s: string)
    requires s == "#hz hello 123456789"
    ensures Parse(s) == Some(Command("hello", "123456789"))
    ensures GroupId(Parse(s).value) == 123456789
  {
    HelloMatches(s);
    HelloGroups(s);
    NineDigits(s[10..19]);
  }

  /** The two groups of `#hz hello 123456789`, cut where HelloMatches says. */
  lemma HelloGroups(s: string)
    requires s == "#hz hello 123456789"
    ensures s[4..9] == "hello" && s[10..19] == "123456789"
  {
    var c, d := s[4..9], s[10..19];
    assert forall i :: 0 <= i < 5 ==> c[i] == "hello"[i];
    assert forall i :: 0 <= i < 9 ==> d[i] == "123456789"[i];
  }

  lemma HelloMatches(s: string)
    requires s == "#hz hello 123456789"
    ensures Match(s) == Some(Split(4, 9, 10, 19))
  {
    var sp := Split(4, 9, 10, 19);
    assert IsSplit(s, sp);
    HelloHasNoEarlierSplit(s, sp);
    MatchIsFirstSplit(s, sp);
  }

  /** `#hz hello 123456789` through a client bound to the event, accepted at once: one
      `send_packet` call for group 123456789 with `hello` in the packet, then the confirmation. */
  lemma HelloIsSent(m: string, bot: Handle, rest: seq<Outcome>)
    requires m == "#hz hello 123456789" && |rest| >= MaxCalls - 1
    ensures SendGrey(Invocation(true, m, AdapterEvent(Some(bot)), []), [Ok] + rest)
            == [Call(bot, Action("send_packet", PacketParams(123456789, GreyPacket("hello"))), Ok),
                Reply(SentReply(123456789))]
  {
    HelloParses(m);
  }

  /** "action not found" is classified as an unsupported action. */
  lemma NotFoundIsUnsupported(e: string)
    requires e == "action not found"
    ensures IsUnsupported(e)
  {
    assert forall i :: 0 <= i < |e| ==> Lower(e)[i] == e[i];
    assert Lower(e) == e;
    assert e[7..16] == "not found";
    assert OccursAt(Lower(e), "not found", 7);
  }

  /** "permission denied" is not. */
  lemma PermissionDeniedIsOther(e: string)
    requires e == "permission denied"
    ensures !IsUnsupported(e)
  {
    assert forall i :: 0 <= i < |e| ==> Lower(e)[i] == e[i];
    assert Lower(e) == e;
    assert forall i :: 0 <= i <= |e| ==> !OccursAt(e, "not found", i) by {
      forall i | 0 <= i <= |e| ensures !OccursAt(e, "not found", i) {
        if i <= |e| - 9 {
          assert e[i..i + 9][0] == e[i];
        }
      }
    }
    assert forall i :: 0 <= i <= |e| ==> !OccursAt(e, "不支持", i) by {
      forall i | 0 <= i <= |e| ensures !OccursAt(e, "不支持", i) {
        if i <= |e| - 3 {
          assert e[i..i + 3][0] == e[i];
        }
      }
    }
  }

  /** Both raw-packet actions are unknown to the endpoint, the plain message goes through:
      three calls, the last one `send_group_msg` with the tagged content. */
  lemma NotFoundFallsBackToPlainText(m: string, e: string, bot: Handle)
    requires m == "#hz hello 123456789" && e == "action not found"
    ensures SendGrey(Invocation(true, m, AdapterEvent(Some(bot)), []), [Err(e), Err(e), Ok])
        == [Call(bot, Action("send_packet", PacketParams(123456789, GreyPacket("hello"))), Err(e)),
            Call(bot, Action("_send_packet", PacketParams(123456789, GreyPacket("hello"))), Err(e)),
            Call(bot, Action("send_group_msg", GroupMsgParams(123456789, [TextSegment(GreyTag + "hello")])), Ok),
            Reply(PlainSentReply(123456789))]
  {
    var inv := Invocation(true, m, AdapterEvent(Some(bot)), []);
    HelloParses(m);
    NotFoundIsUnsupported(e);
    assert ResolveBot(inv.source, inv.platforms) == Some(bot);
    DegradedPath(inv, [Err(e), Err(e), Ok]);
  }

  /** An error that is not about an unsupported action is reported at once, with no fallback. */
  lemma PermissionDeniedIsReported(m: string, e: string, bot: Handle)
    requires m == "#hz hello 123456789" && e == "permission denied"
    ensures SendGrey(Invocation(true, m, AdapterEvent(Some(bot)), []), [Err(e), Ok, Ok])
        == [Call(bot, Action("send_packet", PacketParams(123456789, GreyPacket("hello"))), Err(e)),
            Reply(FailedReply(e))]
  {
    HelloParses(m);
    PermissionDeniedIsOther(e);
  }

  /** A group number one digit longer than `int` converts: the message matches, the
      conversion raises, and the handler ends with no call and no reply. */
  lemma OverlongGroupRaises(d: string, outcomes: seq<Outcome>)
    requires |d| == IntMaxStrDigits + 1 && IsDigits(d) && |outcomes| >= MaxCalls
    ensures SendGrey(Invocation(true, "#hz x " + d, OtherEvent, []), outcomes) == []
  {
    var s := "#hz x " + d;
    var sp := Split(4, 5, 6, |s|);
    assert s[..3] == Prefix;
    assert forall k :: 6 <= k < |s| ==> s[k] == d[k - 6];
    assert IsSplit(s, sp);
    forall other | IsSplit(s, other)
      ensures !Before(other, sp)
    {
      assert other.p1 > 4 ==> IsSpace(s[4]);
    }
    MatchIsFirstSplit(s, sp);
    assert Parse(s).value.digits == s[6..] == d;
  }
}
