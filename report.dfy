/**
 * The JSON branch of `write_result`: the serialised entries, in dictionary
 * order, are printed between brackets with a comma after every element
 * while the counter is above one.
 */
module Report {

  /** The elements separated by single commas. */
  function Join(elems: seq<string>): string
    decreases |elems|
  {
    if |elems| == 0 then ""
    else if |elems| == 1 then elems[0]
    else Join(elems[..|elems| - 1]) + "," + elems[|elems| - 1]
  }

  /** The JSON report for the serialised entries. */
  method WriteJson(elements: seq<string>) returns (out: string)
    ensures out == "[" + Join(elements) + "]\n"
  {
    var n := |elements|;
    var count := n;
    out := "[";
    for j := 0 to n
      invariant count == if j == n && n > 0 then 1 else n - j
      invariant out == "[" + Join(elements[..j]) + (if 0 < j < n then "," else "")
    {
      assert elements[..j + 1][..j] == elements[..j];
      out := out + elements[j];
      if count > 1 {
        out := out + ",";
        count := count - 1;
      }
    }
    assert elements[..n] == elements;
    out := out + "]\n";
  }

  /** Occurrences of `c` in `s`. */
  function Occurrences(s: string, c: char): nat
    decreases |s|
  {
    if s == [] then 0
    else Occurrences(s[..|s| - 1], c) + (if s[|s| - 1] == c then 1 else 0)
  }

  /** Occurrences of `c` in all the elements together. */
  function TotalOccurrences(elems: seq<string>, c: char): nat
    decreases |elems|
  {
    if elems == [] then 0
    else TotalOccurrences(elems[..|elems| - 1], c) + Occurrences(elems[|elems| - 1], c)
  }

  lemma {:induction false} OccurrencesConcat(s: string, t: string, c: char)
    ensures Occurrences(s + t, c) == Occurrences(s, c) + Occurrences(t, c)
    decreases |t|
  {
    if t == [] {
      assert s + t == s;
    } else {
      var m := |t| - 1;
      OccurrencesConcat(s, t[..m], c);
      assert (s + t)[..|s + t| - 1] == s + t[..m];
    }
  }

  /** Joining n elements adds exactly n - 1 commas to theirs. */
  lemma {:induction false} JoinAddsSeparators(elems: seq<string>)
    requires elems != []
    ensures Occurrences(Join(elems), ',') == TotalOccurrences(elems, ',') + |elems| - 1
    decreases |elems|
  {
    var n := |elems| - 1;
    if n > 0 {
      JoinAddsSeparators(elems[..n]);
      OccurrencesConcat(Join(elems[..n]), ",", ',');
      OccurrencesConcat(Join(elems[..n]) + ",", elems[n], ',');
      assert Occurrences(",", ',') == 1 by {
        assert ","[..0] == [];
      }
    } else {
      assert elems[..0] == [];
    }
  }

  /** Joining splits at any point into the two joined halves and one comma. */
  lemma {:induction false} JoinAppend(a: seq<string>, b: seq<string>)
    requires a != [] && b != []
    ensures Join(a + b) == Join(a) + "," + Join(b)
    decreases |b|
  {
    var m := |b| - 1;
    assert (a + b)[..|a + b| - 1] == a + b[..m];
    if m > 0 {
      JoinAppend(a, b[..m]);
    } else {
      assert a + b[..m] == a;
    }
  }
}
