/**
 * What the replay promises: one entry per distinct dest in order of first
 * appearance, per-field last-write-wins, first-write-wins for `identifier`,
 * null-dest records ignored, and the protocol-version error.
 */
module ProjectorProperties {
  import opened Wrappers
  import opened Json
  import opened Decoder
  import opened Projector

  /** The dests the fragments address, in ledger order. */
  function Dests(frags: seq<Fragment>): seq<Value>
  {
    seq(|frags|, i requires 0 <= i < |frags| => frags[i].dest)
  }

  /** The position of the first occurrence of `x` in `s`. */
  function FirstIndex(s: seq<Value>, x: Value): (r: nat)
    requires x in s
    ensures r < |s| && s[r] == x
    ensures forall k :: 0 <= k < r ==> s[k] != x
  {
    if s[0] == x then 0 else 1 + FirstIndex(s[1..], x)
  }

  lemma FirstIndexAppend(s: seq<Value>, y: Value, x: Value)
    requires x in s
    ensures FirstIndex(s + [y], x) == FirstIndex(s, x)
  {
    var r, r' := FirstIndex(s, x), FirstIndex(s + [y], x);
    assert (s + [y])[r] == x;
    assert r' <= r;
    assert s[r'] == x;
  }

  lemma FoldUnfold(frags: seq<Fragment>)
    requires frags != []
    ensures Fold(frags) == Step(Fold(frags[..|frags| - 1]), frags[|frags| - 1])
  {
  }

  /** A dest has an entry exactly when some fragment addresses it. */
  lemma {:induction false} FoldKeys(frags: seq<Fragment>, d: Value)
    ensures d in Fold(frags).entries <==> d in Dests(frags)
    decreases |frags|
  {
    if frags != [] {
      var n := |frags| - 1;
      var pre := frags[..n];
      FoldKeys(pre, d);
      FoldUnfold(frags);
      DestsAppend(frags);
    }
  }

  lemma DestsAppend(frags: seq<Fragment>)
    requires frags != []
    ensures Dests(frags) == Dests(frags[..|frags| - 1]) + [frags[|frags| - 1].dest]
  {
  }

  /** The keys `o` are listed in order of first appearance in `ds`. */
  ghost predicate SortedByFirstAppearance(o: seq<Value>, ds: seq<Value>)
  {
    forall i, j :: 0 <= i < j < |o| ==>
      o[i] in ds && o[j] in ds && FirstIndex(ds, o[i]) < FirstIndex(ds, o[j])
  }

  /** Appending a dest keeps the order sorted: a dest already seen leaves the
      keys alone, a new one goes last. */
  lemma SortedAppend(o: seq<Value>, ds: seq<Value>, y: Value)
    requires forall x :: x in o <==> x in ds
    requires SortedByFirstAppearance(o, ds)
    ensures y in ds ==> SortedByFirstAppearance(o, ds + [y])
    ensures y !in ds ==> SortedByFirstAppearance(o + [y], ds + [y])
  {
    forall x | x in ds ensures FirstIndex(ds + [y], x) == FirstIndex(ds, x) {
      FirstIndexAppend(ds, y, x);
    }
    if y !in ds {
      var o', ds' := o + [y], ds + [y];
      assert FirstIndex(ds', y) == |ds|;
      forall i, j | 0 <= i < j < |o'|
        ensures o'[i] in ds' && o'[j] in ds' && FirstIndex(ds', o'[i]) < FirstIndex(ds', o'[j])
      {
        if j < |o| {
          assert o'[i] == o[i] && o'[j] == o[j];
        } else {
          assert o'[i] == o[i] && o'[j] == y;
        }
      }
    }
  }

  /** The key order lists every distinct dest once, sorted by first appearance. */
  lemma {:induction false} OrderIsFirstAppearance(frags: seq<Fragment>)
    ensures forall x :: x in Fold(frags).order <==> x in Dests(frags)
    ensures forall i, j :: 0 <= i < j < |Fold(frags).order| ==> Fold(frags).order[i] != Fold(frags).order[j]
    ensures SortedByFirstAppearance(Fold(frags).order, Dests(frags))
    decreases |frags|
  {
    FoldWellFormed(frags);
    forall x ensures x in Fold(frags).order <==> x in Dests(frags) {
      FoldKeys(frags, x);
    }
    if frags != [] {
      var n := |frags| - 1;
      var pre, f := frags[..n], frags[n];
      OrderIsFirstAppearance(pre);
      DestsAppend(frags);
      FoldUnfold(frags);
      FoldKeys(pre, f.dest);
      SortedAppend(Fold(pre).order, Dests(pre), f.dest);
    }
  }

  /** Later records never reorder keys: the order after a prefix of the
      fragments is a prefix of the final order. */
  lemma {:induction false} OrderIsStable(a: seq<Fragment>, b: seq<Fragment>)
    ensures Fold(a).order <= Fold(a + b).order
    decreases |b|
  {
    if b == [] {
      assert a + b == a;
    } else {
      var m := |b| - 1;
      OrderIsStable(a, b[..m]);
      assert (a + b)[..|a + b| - 1] == a + b[..m];
    }
  }

  /** A recognised field after an update: the fragment's value if it
      carries one, the previous value otherwise. */
  lemma UpdateEntryField(e: Entry, f: Fragment, a: Attr)
    ensures Field(a) in UpdateEntry(e, f) <==> a in f.fields || Field(a) in e
    ensures Field(a) in UpdateEntry(e, f) ==>
              UpdateEntry(e, f)[Field(a)] == if a in f.fields then f.fields[a] else e[Field(a)]
  {
  }

  /** The entry of `d` after one step. */
  lemma StepEntry(t: Table, f: Fragment, d: Value)
    ensures d in Step(t, f).entries <==> d in t.entries || d == f.dest
    ensures d in Step(t, f).entries ==>
              Step(t, f).entries[d] ==
                if d != f.dest then t.entries[d]
                else UpdateEntry(if d in t.entries then t.entries[d] else map[], f)
  {
    var u := UpdateEntry(if f.dest in t.entries then t.entries[f.dest] else map[], f);
    assert Step(t, f).entries == t.entries[f.dest := u];
  }

  /** Fragment `f` sets field `a` of validator `d`. */
  predicate Carries(f: Fragment, d: Value, a: Attr)
  {
    f.dest == d && a in f.fields
  }

  /** `frags[i]` is the last fragment that sets `a` for `d`. */
  ghost predicate IsLastCarrier(frags: seq<Fragment>, i: int, d: Value, a: Attr)
  {
    && 0 <= i < |frags|
    && Carries(frags[i], d, a)
    && forall j :: i < j < |frags| ==> !Carries(frags[j], d, a)
  }

  /** A last carrier of a prefix stays last when the next fragment does not carry. */
  lemma LastCarrierExtends(frags: seq<Fragment>, i: int, d: Value, a: Attr)
    requires frags != []
    requires IsLastCarrier(frags[..|frags| - 1], i, d, a)
    requires !Carries(frags[|frags| - 1], d, a)
    ensures IsLastCarrier(frags, i, d, a) && frags[..|frags| - 1][i] == frags[i]
  {
  }

  /** Carriers of the fragments other than the last one are carriers of the prefix. */
  lemma CarriersOfPrefix(frags: seq<Fragment>, pre: seq<Fragment>, d: Value, a: Attr)
    requires frags != [] && pre == frags[..|frags| - 1]
    requires !Carries(frags[|frags| - 1], d, a)
    ensures (exists i :: 0 <= i < |frags| && Carries(frags[i], d, a)) ==>
              exists i :: 0 <= i < |pre| && Carries(pre[i], d, a)
  {
    if exists i :: 0 <= i < |frags| && Carries(frags[i], d, a) {
      var i :| 0 <= i < |frags| && Carries(frags[i], d, a);
      assert pre[i] == frags[i];
    }
  }

  /** A dest that the prefix never addresses has no carrier there. */
  lemma NoEarlierCarrier(frags: seq<Fragment>, d: Value, a: Attr)
    requires frags != []
    requires d !in Dests(frags[..|frags| - 1])
    requires !Carries(frags[|frags| - 1], d, a)
    ensures forall i :: 0 <= i < |frags| ==> !Carries(frags[i], d, a)
  {
    var pre := frags[..|frags| - 1];
    forall i | 0 <= i < |frags| - 1 ensures !Carries(frags[i], d, a) {
      assert Dests(pre)[i] == frags[i].dest;
    }
  }

  /** Each recognised field is present exactly when some record for the
      dest carried it, and then holds the value of the latest such record. */
  lemma {:induction false} FieldIsLastWrite(frags: seq<Fragment>, d: Value, a: Attr)
    requires d in Fold(frags).entries
    ensures Field(a) in Fold(frags).entries[d] <==>
              exists i :: 0 <= i < |frags| && Carries(frags[i], d, a)
    ensures Field(a) in Fold(frags).entries[d] ==>
              exists i :: IsLastCarrier(frags, i, d, a) && Fold(frags).entries[d][Field(a)] == frags[i].fields[a]
    decreases |frags|
  {
    var n := |frags| - 1;
    var pre, f := frags[..n], frags[n];
    var t := Fold(pre);
    FoldUnfold(frags);
    StepEntry(t, f, d);
    var e := Fold(frags).entries[d];
    if f.dest == d && a in f.fields {
      var previous := if d in t.entries then t.entries[d] else map[];
      UpdateEntryField(previous, f, a);
      assert IsLastCarrier(frags, n, d, a);
    } else if d in t.entries {
      var previous := t.entries[d];
      FieldIsLastWrite(pre, d, a);
      CarriersOfPrefix(frags, pre, d, a);
      if f.dest == d {
        UpdateEntryField(previous, f, a);
      }
      assert Field(a) in e <==> Field(a) in previous;
      if Field(a) in e {
        assert e[Field(a)] == previous[Field(a)];
        var i :| IsLastCarrier(pre, i, d, a) && previous[Field(a)] == pre[i].fields[a];
        LastCarrierExtends(frags, i, d, a);
      }
    } else {
      UpdateEntryField(map[], f, a);
      FoldKeys(pre, d);
      NoEarlierCarrier(frags, d, a);
    }
  }

  /** `frags[i]` is the first fragment addressed to `d`. */
  ghost predicate IsFirstFor(frags: seq<Fragment>, i: int, d: Value)
  {
    && 0 <= i < |frags|
    && frags[i].dest == d
    && forall j :: 0 <= j < i ==> frags[j].dest != d
  }

  lemma FirstForExtends(frags: seq<Fragment>, n: nat, i: int, d: Value)
    requires n <= |frags|
    requires IsFirstFor(frags[..n], i, d)
    ensures IsFirstFor(frags, i, d) && frags[..n][i] == frags[i]
  {
  }

  /** `identifier` comes from the first record for the dest, whatever it
      holds (null included), and later records never change it. */
  lemma {:induction false} IdentifierIsFirstWrite(frags: seq<Fragment>, d: Value)
    requires d in Fold(frags).entries
    ensures Identifier in Fold(frags).entries[d]
    ensures exists i :: IsFirstFor(frags, i, d) && Fold(frags).entries[d][Identifier] == frags[i].identifier
    decreases |frags|
  {
    var n := |frags| - 1;
    var pre, f := frags[..n], frags[n];
    var t := Fold(pre);
    FoldUnfold(frags);
    StepEntry(t, f, d);
    var e := Fold(frags).entries[d];
    if d in t.entries {
      IdentifierIsFirstWrite(pre, d);
      IdentifierKept(t.entries[d], f);
      var i :| IsFirstFor(pre, i, d) && t.entries[d][Identifier] == pre[i].identifier;
      FirstForExtends(frags, n, i, d);
    } else {
      FoldKeys(pre, d);
      IdentifierKept(map[], f);
      NoEarlierDest(frags, d);
    }
  }

  /** `identifier` is kept once present and taken from the fragment otherwise. */
  lemma IdentifierKept(e: Entry, f: Fragment)
    ensures Identifier in UpdateEntry(e, f)
    ensures UpdateEntry(e, f)[Identifier] == if Identifier in e then e[Identifier] else f.identifier
  {
  }

  lemma NoEarlierDest(frags: seq<Fragment>, d: Value)
    requires frags != [] && frags[|frags| - 1].dest == d
    requires d !in Dests(frags[..|frags| - 1])
    ensures IsFirstFor(frags, |frags| - 1, d)
  {
    var pre := frags[..|frags| - 1];
    forall j | 0 <= j < |pre| ensures frags[j].dest != d {
      assert Dests(pre)[j] == frags[j].dest;
    }
  }

  /** Every entry maps `dest` to its own key and has an `identifier`. */
  lemma EntryShape(frags: seq<Fragment>, d: Value)
    requires d in Fold(frags).entries
    ensures Dest in Fold(frags).entries[d] && Fold(frags).entries[d][Dest] == d
    ensures Identifier in Fold(frags).entries[d]
  {
    FoldWellFormed(frags);
  }

  /** Two decodings agree on success, and on the fragments when they succeed. */
  ghost predicate SameOutcome(r1: Result<seq<Fragment>, ParseError>, r2: Result<seq<Fragment>, ParseError>)
  {
    (r1.Ok? <==> r2.Ok?) && (r1.Ok? ==> r1 == r2)
  }

  /** Two ledgers whose prefixes decode alike and whose last lines are equal
      decode alike. */
  lemma SameLastLine(l1: seq<Value>, l2: seq<Value>, version: string)
    requires l1 != [] && l2 != []
    requires l1[|l1| - 1] == l2[|l2| - 1]
    requires SameOutcome(DecodeAll(l1[..|l1| - 1], version), DecodeAll(l2[..|l2| - 1], version))
    ensures SameOutcome(DecodeAll(l1, version), DecodeAll(l2, version))
  {
  }

  /** Inserting a record with a null dest anywhere in the ledger changes
      neither whether the decoding succeeds nor the fragments it yields. */
  lemma {:induction false} SkippedRecordIsInert(a: seq<Value>, line: Value, b: seq<Value>, version: string)
    requires ProtocolOf(version).Some?
    requires Decode(ProtocolOf(version).value, line) == Skip
    ensures SameOutcome(DecodeAll(a + [line] + b, version), DecodeAll(a + b, version))
    decreases |b|
  {
    if b == [] {
      assert a + [line] + b == a + [line];
      assert (a + [line])[..|a|] == a;
      assert a + b == a;
    } else {
      var m := |b| - 1;
      SkippedRecordIsInert(a, line, b[..m], version);
      var l1, l2 := a + [line] + b, a + b;
      assert l1[..|l1| - 1] == a + [line] + b[..m];
      assert l2[..|l2| - 1] == a + b[..m];
      assert l1[|l1| - 1] == b[m] == l2[|l2| - 1];
      SameLastLine(l1, l2, version);
    }
  }

  /** So a null-dest record neither makes the replay fail nor changes any
      entry of the final dictionary. */
  lemma NullDestChangesNothing(a: seq<Value>, line: Value, b: seq<Value>, version: string)
    requires ProtocolOf(version).Some?
    requires DestSlot(ProtocolOf(version).value, line) == Some(Null)
    ensures Replay(a + [line] + b, version).Ok? <==> Replay(a + b, version).Ok?
    ensures Replay(a + b, version).Ok? ==> Replay(a + [line] + b, version) == Replay(a + b, version)
  {
    SkipIffNullDest(ProtocolOf(version).value, line);
    SkippedRecordIsInert(a, line, b, version);
  }

  /** A version other than "1" or "2" is an error as soon as there is a
      record to read; an empty ledger still yields the empty dictionary. */
  lemma {:induction false} UnknownVersion(ledger: seq<Value>, version: string)
    requires ProtocolOf(version).None?
    ensures ledger == [] ==> Replay(ledger, version) == Ok(Empty)
    ensures ledger != [] ==> Replay(ledger, version) == Err(BadProtocolVersion)
    decreases |ledger|
  {
    if ledger != [] {
      UnknownVersion(ledger[..|ledger| - 1], version);
    }
  }

  /** Ledgers whose records decode alike under protocol 1 and protocol 2
      respectively (as `ProtocolsAgree` shows for records carrying the same
      dest, data and identifier) replay to the same result. */
  lemma {:induction false} ProtocolEquivalentLedgers(l1: seq<Value>, l2: seq<Value>)
    requires |l1| == |l2|
    requires forall i :: 0 <= i < |l1| ==> Decode(V1, l1[i]) == Decode(V2, l2[i])
    ensures DecodeAll(l1, "1") == DecodeAll(l2, "2")
    ensures Replay(l1, "1") == Replay(l2, "2")
    decreases |l1|
  {
    if l1 != [] {
      var n := |l1| - 1;
      ProtocolEquivalentLedgers(l1[..n], l2[..n]);
    }
  }
}
