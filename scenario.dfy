/**
 * A worked replay: X gets an alias, Y a node address, then X a client port;
 * X keeps its alias and its first identifier, and X stays ahead of Y.
 */
module Scenario {
  import opened Wrappers
  import opened Json
  import opened Decoder
  import opened Projector

  /** A protocol-2 ledger line with the given dest, data and `from`. */
  function Txn2(dest: Value, data: map<string, Value>, from: Value): Value
  {
    Obj(map["txn" := Obj(map["data" := Obj(map["dest" := dest, "data" := Obj(data)]),
                             "metadata" := Obj(map["from" := from])])])
  }

  /** A protocol-2 line with a non-null, hashable dest decodes to its fragment. */
  lemma DecodeTxn2(dest: Value, data: map<string, Value>, from: Value)
    requires dest != Null && Hashable(dest)
    ensures Decode(V2, Txn2(dest, data, from)) == Target(Fragment(dest, Recognised(data), from))
  {
    assert Layout2(Txn2(dest, data, from), dest, Obj(data), from);
  }

  /** A data object holding one recognised field. */
  lemma RecognisedSingle(a: Attr, v: Value)
    ensures Recognised(map[AttrName(a) := v]) == map[a := v]
  {
    var data := map[AttrName(a) := v];
    forall b ensures b in Recognised(data) <==> b == a {
      AttrNamesDistinct(a, b);
      RecognisedFields(data, b);
    }
    RecognisedFields(data, a);
  }

  /** One more decodable line appends its fragment. */
  lemma DecodeSnoc(ledger: seq<Value>, line: Value, frags: seq<Fragment>, f: Fragment)
    requires DecodeAll(ledger, "2") == Ok(frags) && Decode(V2, line) == Target(f)
    ensures DecodeAll(ledger + [line], "2") == Ok(frags + [f])
  {
    assert (ledger + [line])[..|ledger|] == ledger;
  }

  /** Three decodable lines give their three fragments, in order. */
  lemma DecodeThree(r1: Value, r2: Value, r3: Value, f1: Fragment, f2: Fragment, f3: Fragment)
    requires Decode(V2, r1) == Target(f1) && Decode(V2, r2) == Target(f2) && Decode(V2, r3) == Target(f3)
    ensures DecodeAll([r1, r2, r3], "2") == Ok([f1, f2, f3])
  {
    DecodeSnoc([], r1, [], f1);
    assert [] + [r1] == [r1] && [] + [f1] == [f1];
    DecodeSnoc([r1], r2, [f1], f2);
    assert [r1] + [r2] == [r1, r2] && [f1] + [f2] == [f1, f2];
    DecodeSnoc([r1, r2], r3, [f1, f2], f3);
    assert [r1, r2] + [r3] == [r1, r2, r3] && [f1, f2] + [f3] == [f1, f2, f3];
  }

  /** Folding three fragments is three steps from the empty table. */
  lemma FoldThreeSteps(f1: Fragment, f2: Fragment, f3: Fragment)
    ensures Fold([f1, f2, f3]) == Step(Step(Step(Empty, f1), f2), f3)
  {
    assert [] + [f1] == [f1];
    assert [f1] + [f2] == [f1, f2];
    assert [f1, f2] + [f3] == [f1, f2, f3];
    FoldSnoc([], f1);
    FoldSnoc([f1], f2);
    FoldSnoc([f1, f2], f3);
  }

  /** A step for a new dest appends it. */
  lemma StepFresh(t: Table, f: Fragment)
    requires f.dest !in t.entries
    ensures Step(t, f) == Table(t.order + [f.dest], t.entries[f.dest := UpdateEntry(map[], f)])
  {
  }

  /** A step for a known dest keeps the order. */
  lemma StepKnown(t: Table, f: Fragment)
    requires f.dest in t.entries
    ensures Step(t, f) == Table(t.order, t.entries[f.dest := UpdateEntry(t.entries[f.dest], f)])
  {
  }

  lemma Pair(a: Value, b: Value)
    ensures [a] + [b] == [a, b]
  {
  }

  lemma Overwrite(a: Value, b: Value, u: Entry, v: Entry, w: Entry)
    requires a != b
    ensures map[a := u, b := v][a := w] == map[a := w, b := v]
  {
  }

  /** Two fragments for one dest around one for another: two entries, the
      first dest ahead. */
  lemma StepThree(f1: Fragment, f2: Fragment, f3: Fragment)
    requires f1.dest != f2.dest && f3.dest == f1.dest
    ensures Step(Step(Step(Empty, f1), f2), f3)
            == Table([f1.dest, f2.dest],
                     map[f1.dest := UpdateEntry(UpdateEntry(map[], f1), f3),
                         f2.dest := UpdateEntry(map[], f2)])
  {
    var u1, u2 := UpdateEntry(map[], f1), UpdateEntry(map[], f2);
    var t1 := Table([f1.dest], map[f1.dest := u1]);
    var t2 := Table([f1.dest, f2.dest], map[f1.dest := u1, f2.dest := u2]);
    StepFresh(Empty, f1);
    assert [] + [f1.dest] == [f1.dest];
    assert Step(Empty, f1) == t1;
    StepFresh(t1, f2);
    Pair(f1.dest, f2.dest);
    assert Step(t1, f2) == t2;
    StepKnown(t2, f3);
    Overwrite(f1.dest, f2.dest, u1, u2, UpdateEntry(u1, f3));
  }

  lemma UnionSingle<K, V>(m: map<K, V>, k: K, v: V)
    ensures m + map[k := v] == m[k := v]
  {
  }

  lemma RestampSame<K, V>(m: map<K, V>, k: K, v: V)
    requires k in m && m[k] == v
    ensures m[k := v] == m
  {
  }

  lemma FieldItemsSingle(a: Attr, v: Value)
    ensures FieldItems(map[a := v]) == map[Field(a) := v]
  {
  }

  /** The first update of a new dest with one field. */
  lemma FirstUpdate(x: Value, a: Attr, v: Value, id: Value)
    ensures UpdateEntry(map[], Fragment(x, map[a := v], id)) == map[Field(a) := v, Identifier := id, Dest := x]
  {
    var items := FieldItems(map[a := v]);
    FieldItemsSingle(a, v);
    assert map[] + items == items;
    assert Identifier !in items;
  }

  /** A second field for the same dest: both fields, the first identifier. */
  lemma SecondUpdate(x: Value, a: Attr, v: Value, id: Value, b: Attr, w: Value, id2: Value)
    ensures UpdateEntry(map[Field(a) := v, Identifier := id, Dest := x], Fragment(x, map[b := w], id2))
            == map[Field(a) := v, Identifier := id, Dest := x, Field(b) := w]
  {
    var e := map[Field(a) := v, Identifier := id, Dest := x];
    FieldItemsSingle(b, w);
    UnionSingle(e, Field(b), w);
    assert Identifier in e[Field(b) := w];
    RestampSame(e[Field(b) := w], Dest, x);
  }

  /** Three decodable lines, the third for the first one's dest. */
  lemma ReplayThree(r1: Value, r2: Value, r3: Value, f1: Fragment, f2: Fragment, f3: Fragment)
    requires Decode(V2, r1) == Target(f1) && Decode(V2, r2) == Target(f2) && Decode(V2, r3) == Target(f3)
    requires f1.dest != f2.dest && f3.dest == f1.dest
    ensures Replay([r1, r2, r3], "2")
            == Ok(Table([f1.dest, f2.dest],
                        map[f1.dest := UpdateEntry(UpdateEntry(map[], f1), f3),
                            f2.dest := UpdateEntry(map[], f2)]))
  {
    DecodeThree(r1, r2, r3, f1, f2, f3);
    FoldThreeSteps(f1, f2, f3);
    StepThree(f1, f2, f3);
  }

  /** Validator x gets an alias, y a node address, then x a client port
      from a different originator: x keeps its first identifier and its
      alias, gains the port, and stays ahead of y. */
  lemma ThreeRecordReplay(x: Value, y: Value, alias: Value, nodeIp: Value, clientPort: Value,
                          a: Value, b: Value, c: Value)
    requires x != y
    requires x != Null && Hashable(x) && y != Null && Hashable(y)
    ensures Replay([Txn2(x, map["alias" := alias], a),
                    Txn2(y, map["node_ip" := nodeIp], b),
                    Txn2(x, map["client_port" := clientPort], c)], "2")
            == Ok(Table([x, y],
                        map[x := map[Field(Alias) := alias, Identifier := a, Dest := x,
                                     Field(ClientPort) := clientPort],
                            y := map[Field(NodeIp) := nodeIp, Identifier := b, Dest := y]]))
  {
    assert AttrName(Alias) == "alias" && AttrName(NodeIp) == "node_ip" && AttrName(ClientPort) == "client_port";
    var r1 := Txn2(x, map[AttrName(Alias) := alias], a);
    var r2 := Txn2(y, map[AttrName(NodeIp) := nodeIp], b);
    var r3 := Txn2(x, map[AttrName(ClientPort) := clientPort], c);
    var f1 := Fragment(x, map[Alias := alias], a);
    var f2 := Fragment(y, map[NodeIp := nodeIp], b);
    var f3 := Fragment(x, map[ClientPort := clientPort], c);
    RecognisedSingle(Alias, alias);
    DecodeTxn2(x, map[AttrName(Alias) := alias], a);
    RecognisedSingle(NodeIp, nodeIp);
    DecodeTxn2(y, map[AttrName(NodeIp) := nodeIp], b);
    RecognisedSingle(ClientPort, clientPort);
    DecodeTxn2(x, map[AttrName(ClientPort) := clientPort], c);
    ReplayThree(r1, r2, r3, f1, f2, f3);
    FirstUpdate(x, Alias, alias, a);
    FirstUpdate(y, NodeIp, nodeIp, b);
    SecondUpdate(x, Alias, alias, a, ClientPort, clientPort, c);
    assert Replay([r1, r2, r3], "2") == Ok(Table([x, y],
                        map[x := map[Field(Alias) := alias, Identifier := a, Dest := x,
                                     Field(ClientPort) := clientPort],
                            y := map[Field(NodeIp) := nodeIp, Identifier := b, Dest := y]]));
  }
}
