/** The raw protocol packet that renders a grey-text line: a nested object whose keys are
    protocol field numbers written as strings. Every value is fixed except the content
    slot at `25/1/28/2`; the target group is not part of the packet at all. */
module Packet {
  import opened Wrappers

  /** A packet value: an integer, a string, or an object whose fields keep their
      insertion order, as a Python dict does. */
  datatype Node = Int(i: int) | Str(s: string) | Obj(fields: seq<(string, Node)>)

  /** `fields[key]`: the value stored under the first field named `key`. This is Python's
      lookup only for objects that do not repeat a key (a dict literal with a repeated key
      keeps the last value); no object of the grey-text packet repeats one. */
  function Get(fields: seq<(string, Node)>, key: string): Option<Node> {
    if |fields| == 0 then None
    else if fields[0].0 == key then Some(fields[0].1)
    else Get(fields[1..], key)
  }

  /** The value reached by following the keys of `path` from `v`, if every key is there. */
  function At(v: Node, path: seq<string>): Option<Node>
    decreases |path|
  {
    if |path| == 0 then Some(v)
    else
      match v
      case Obj(fs) =>
        (match Get(fs, path[0])
         case Some(child) => At(child, path[1..])
         case None => None)
      case _ => None
  }

  /** Where the grey-text content sits in the packet. */
  const ContentPath: seq<string> := ["25", "1", "28", "2"]

  /** The packet the handler builds for `content`. */
  function GreyPacket(content: string): Node {
    Obj([
      ("25", Obj([
        ("1", Obj([
          ("1", Int(11)),
          ("50", Str("3573715425")),
          ("20", Obj([
            ("2", Int(3573715425)),
            ("3", Int(3009074854)),
            ("4", Int(800800864))
          ])),
          ("5", Int(8)),
          ("0", Obj([("1", Int(1))])),
          ("28", Obj([
            ("1", Int(2)),
            ("2", Str(content)),
            ("3", Int(800800864)),
            ("4", Obj([("1", Str("")), ("2", Int(0))]))
          ])),
          ("30", Int(2)),
          ("14", Int(1))
        ]))
      ]))
    ])
  }

  /** `u` and `v` have the same keys in the same order, and the same values everywhere
      off `path`; along `path` they may differ. */
  predicate SameExceptAt(u: Node, v: Node, path: seq<string>)
    decreases |path|, if u.Obj? then |u.fields| + 1 else 0
  {
    || |path| == 0
    || u == v
    || (u.Obj? && v.Obj? && SameFieldsExceptAt(u.fields, v.fields, path))
  }

  predicate SameFieldsExceptAt(us: seq<(string, Node)>, vs: seq<(string, Node)>, path: seq<string>)
    requires |path| > 0
    decreases |path|, |us|
  {
    && |us| == |vs|
    && (|us| > 0 ==>
          && us[0].0 == vs[0].0
          && (if us[0].0 == path[0] then SameExceptAt(us[0].1, vs[0].1, path[1..]) else us[0].1 == vs[0].1)
          && SameFieldsExceptAt(us[1..], vs[1..], path))
  }

  /** `q` leaves `path` at some key: it is neither a prefix nor an extension of it. */
  predicate Diverges(q: seq<string>, path: seq<string>) {
    exists i :: 0 <= i < |q| && i < |path| && q[i] != path[i]
  }

  /** `q` is `path` or a path on the way to it. */
  predicate IsPrefixOf(q: seq<string>, path: seq<string>) {
    |q| <= |path| && q == path[..|q|]
  }

  /** Looking a key up in two field lists that agree off `path`. */
  lemma {:induction false} GetSameExceptAt(us: seq<(string, Node)>, vs: seq<(string, Node)>, path: seq<string>, key: string)
    requires |path| > 0 && SameFieldsExceptAt(us, vs, path)
    ensures key != path[0] ==> Get(us, key) == Get(vs, key)
    ensures key == path[0] ==> Get(us, key).Some? == Get(vs, key).Some?
    ensures key == path[0] && Get(us, key).Some? ==>
              SameExceptAt(Get(us, key).value, Get(vs, key).value, path[1..])
  {
    if |us| > 0 && us[0].0 != key {
      GetSameExceptAt(us[1..], vs[1..], path, key);
    }
  }

  /** Two values that agree off `path` give the same answer for every path that leaves it. */
  lemma {:induction false} SameExceptAtAgrees(u: Node, v: Node, path: seq<string>, q: seq<string>)
    requires SameExceptAt(u, v, path) && Diverges(q, path)
    ensures At(u, q) == At(v, q)
    decreases |q|
  {
    if u == v {
      return;
    }
    var key := q[0];
    GetSameExceptAt(u.fields, v.fields, path, key);
    if key == path[0] {
      var gu, gv := Get(u.fields, key), Get(v.fields, key);
      if gu.Some? {
        var i :| 0 <= i < |q| && i < |path| && q[i] != path[i];
        assert q[1..][i - 1] != path[1..][i - 1];
        SameExceptAtAgrees(gu.value, gv.value, path[1..], q[1..]);
      }
    }
  }

  /** Following `p + r` is following `p`, then `r`. */
  lemma {:induction false} AtAppend(v: Node, p: seq<string>, r: seq<string>)
    ensures At(v, p + r) == (match At(v, p) case Some(w) => At(w, r) case None => None)
    decreases |p|
  {
    if |p| == 0 {
      assert p + r == r;
    } else {
      assert (p + r)[0] == p[0] && (p + r)[1..] == p[1..] + r;
      if v.Obj? && Get(v.fields, p[0]).Some? {
        AtAppend(Get(v.fields, p[0]).value, p[1..], r);
      }
    }
  }

  /** `Get` finds the first field with the key. */
  lemma {:induction false} GetFirst(fs: seq<(string, Node)>, key: string, i: nat)
    requires i < |fs| && fs[i].0 == key
    requires forall j :: 0 <= j < i ==> fs[j].0 != key
    ensures Get(fs, key) == Some(fs[i].1)
  {
    if i > 0 {
      GetFirst(fs[1..], key, i - 1);
    }
  }

  lemma {:induction false} SameFieldsRefl(us: seq<(string, Node)>, path: seq<string>)
    requires |path| > 0
    ensures SameFieldsExceptAt(us, us, path)
    decreases |path|, |us|
  {
    if |us| > 0 {
      SameFieldsRefl(us[1..], path);
    }
  }

  /** Two field lists that differ in one field, the one on `path`. */
  lemma {:induction false} SameFieldsOneSlot(us: seq<(string, Node)>, vs: seq<(string, Node)>, path: seq<string>, i: nat)
    requires |path| > 0 && |us| == |vs| && i < |us|
    requires forall j :: 0 <= j < |us| && j != i ==> us[j] == vs[j]
    requires us[i].0 == path[0] && vs[i].0 == path[0]
    requires SameExceptAt(us[i].1, vs[i].1, path[1..])
    ensures SameFieldsExceptAt(us, vs, path)
  {
    if i == 0 {
      assert us[1..] == vs[1..];
      SameFieldsRefl(us[1..], path);
    } else {
      SameFieldsOneSlot(us[1..], vs[1..], path, i - 1);
    }
  }

  /** The content sits at `25/1/28/2`. */
  lemma PacketContentSlot(content: string)
    ensures At(GreyPacket(content), ContentPath) == Some(Str(content))
  {
    var top := GreyPacket(content);
    var l25 := top.fields[0].1;
    var l1 := l25.fields[0].1;
    var l28 := l1.fields[5].1;
    GetFirst(top.fields, "25", 0);
    GetFirst(l25.fields, "1", 0);
    GetFirst(l1.fields, "28", 5);
    GetFirst(l28.fields, "2", 1);
    assert ContentPath[1..] == ["1", "28", "2"];
    assert ContentPath[1..][1..] == ["28", "2"];
    assert ContentPath[1..][1..][1..] == ["2"];
    assert ContentPath[1..][1..][1..][1..] == [];
  }

  /** Packets built for any two contents agree at every path except the content slot and
      the objects on the way to it. */
  lemma PacketConstancy(c1: string, c2: string, q: seq<string>)
    requires !IsPrefixOf(q, ContentPath)
    ensures At(GreyPacket(c1), q) == At(GreyPacket(c2), q)
  {
    var p1, p2 := GreyPacket(c1), GreyPacket(c2);
    var a25, b25 := p1.fields[0].1, p2.fields[0].1;
    var a1, b1 := a25.fields[0].1, b25.fields[0].1;
    var a28, b28 := a1.fields[5].1, b1.fields[5].1;
    assert ContentPath[1..][1..][1..][1..] == [];
    SameFieldsOneSlot(a28.fields, b28.fields, ContentPath[1..][1..][1..], 1);
    SameFieldsOneSlot(a1.fields, b1.fields, ContentPath[1..][1..], 5);
    SameFieldsOneSlot(a25.fields, b25.fields, ContentPath[1..], 0);
    SameFieldsOneSlot(p1.fields, p2.fields, ContentPath, 0);
    if Diverges(q, ContentPath) {
      SameExceptAtAgrees(p1, p2, ContentPath, q);
    } else {
      assert |q| > |ContentPath|;
      assert q == ContentPath + q[|ContentPath|..];
      PacketContentSlot(c1);
      PacketContentSlot(c2);
      AtAppend(p1, ContentPath, q[|ContentPath|..]);
      AtAppend(p2, ContentPath, q[|ContentPath|..]);
    }
  }

  /** The content can be read back from the packet, so different contents give different packets. */
  lemma PacketDeterminesContent(c1: string, c2: string)
    requires GreyPacket(c1) == GreyPacket(c2)
    ensures c1 == c2
  {
    PacketContentSlot(c1);
    PacketContentSlot(c2);
  }
}
