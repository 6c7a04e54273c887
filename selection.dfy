/** An order-preserving filter of a list of wanted column names by membership in a
    second list: the comprehension `[c for c in wanted if c in present]`. */
module Selection {

  /** No element occurs twice in `s`. */
  predicate Distinct(s: seq<string>) {
    forall i, j :: 0 <= i < j < |s| ==> s[i] != s[j]
  }

  /** Putting a new element in front of a list without repetitions keeps it so. */
  lemma DistinctCons(x: string, s: seq<string>)
    requires x !in s && Distinct(s)
    ensures Distinct([x] + s)
  {
    var r := [x] + s;
    forall i, j | 0 <= i < j < |r| ensures r[i] != r[j] {
      assert r[j] == s[j - 1];
      if i > 0 {
        assert r[i] == s[i - 1];
      }
    }
  }

  /** Joining two lists without repetitions and without common elements
      gives a list without repetitions. */
  lemma DistinctAppend(a: seq<string>, b: seq<string>)
    requires Distinct(a) && Distinct(b)
    requires forall x :: x in a ==> x !in b
    ensures Distinct(a + b)
  {
    var r := a + b;
    forall i, j | 0 <= i < j < |r| ensures r[i] != r[j] {
      if j < |a| {
        assert r[i] == a[i] && r[j] == a[j];
      } else if i >= |a| {
        assert r[i] == b[i - |a|] && r[j] == b[j - |a|];
      } else {
        assert r[i] == a[i] && r[j] == b[j - |a|];
        assert a[i] in a;
      }
    }
  }

  /** `s` is obtained from `t` by deleting elements, keeping the rest in order. */
  predicate IsSubsequence(s: seq<string>, t: seq<string>)
    decreases |t|
  {
    if s == [] then true
    else if t == [] then false
    else if s[0] == t[0] then IsSubsequence(s[1..], t[1..])
    else IsSubsequence(s, t[1..])
  }

  /** The elements of `wanted` that occur in `present`, in the order of `wanted`. */
  function Select(wanted: seq<string>, present: seq<string>): (r: seq<string>)
    ensures |r| <= |wanted|
    ensures forall x :: x in r <==> x in wanted && x in present
  {
    if wanted == [] then []
    else (if wanted[0] in present then [wanted[0]] else []) + Select(wanted[1..], present)
  }

  /** Filtering a concatenation filters each part: the order of the parts is kept. */
  lemma {:induction false} SelectAppend(a: seq<string>, b: seq<string>, present: seq<string>)
    ensures Select(a + b, present) == Select(a, present) + Select(b, present)
  {
    if a == [] {
      assert a + b == b;
    } else {
      assert (a + b)[0] == a[0];
      assert (a + b)[1..] == a[1..] + b;
      SelectAppend(a[1..], b, present);
    }
  }

  /** Extending the wanted prefix by one element extends the selection by
      that element exactly when it is present. */
  lemma SelectPrefixStep(wanted: seq<string>, i: nat, present: seq<string>)
    requires i < |wanted|
    ensures Select(wanted[..i + 1], present)
         == Select(wanted[..i], present) + if wanted[i] in present then [wanted[i]] else []
  {
    assert wanted[..i + 1] == wanted[..i] + [wanted[i]];
    SelectAppend(wanted[..i], [wanted[i]], present);
    assert Select([wanted[i]], present) == (if wanted[i] in present then [wanted[i]] else []) + Select([], present);
  }

  /** Every element of a subsequence of `t` is an element of `t`. */
  lemma {:induction false} SubsequenceMembers(s: seq<string>, t: seq<string>)
    requires IsSubsequence(s, t)
    ensures forall x :: x in s ==> x in t
    decreases |t|
  {
    if s != [] && t != [] {
      if s[0] == t[0] {
        SubsequenceMembers(s[1..], t[1..]);
        forall x | x in s ensures x in t {
          if x != s[0] {
            assert x in s[1..];
          }
        }
      } else {
        SubsequenceMembers(s, t[1..]);
      }
    }
  }

  /** The selection keeps the relative order of the wanted list. */
  lemma {:induction false} SelectIsSubsequence(wanted: seq<string>, present: seq<string>)
    ensures IsSubsequence(Select(wanted, present), wanted)
  {
    if wanted != [] {
      var rest := Select(wanted[1..], present);
      SelectIsSubsequence(wanted[1..], present);
      if wanted[0] in present {
        var r := [wanted[0]] + rest;
        assert r[0] == wanted[0] && r[1..] == rest;
      } else {
        assert Select(wanted, present) == rest;
        if rest != [] {
          assert rest[0] in rest && rest[0] != wanted[0];
        }
      }
    }
  }

  /** Filtering a list without repetitions yields a list without repetitions. */
  lemma {:induction false} SelectDistinct(wanted: seq<string>, present: seq<string>)
    requires Distinct(wanted)
    ensures Distinct(Select(wanted, present))
  {
    if wanted != [] {
      assert Distinct(wanted[1..]) by {
        forall i, j | 0 <= i < j < |wanted[1..]| ensures wanted[1..][i] != wanted[1..][j] {
          assert wanted[1..][i] == wanted[i + 1] && wanted[1..][j] == wanted[j + 1];
        }
      }
      SelectDistinct(wanted[1..], present);
      var rest := Select(wanted[1..], present);
      if wanted[0] in present {
        assert wanted[0] !in wanted[1..] by {
          forall k | 0 <= k < |wanted[1..]| ensures wanted[1..][k] != wanted[0] {
            assert wanted[1..][k] == wanted[k + 1];
          }
        }
        var r := [wanted[0]] + rest;
        forall i, j | 0 <= i < j < |r| ensures r[i] != r[j] {
          if i == 0 {
            assert r[j] == rest[j - 1];
          } else {
            assert r[i] == rest[i - 1] && r[j] == rest[j - 1];
          }
        }
      }
    }
  }

  /** The contract of `Select` determines it: on a wanted list without
      repetitions, the only order-preserving list holding exactly the wanted
      elements that are present is `Select(wanted, present)`. */
  lemma {:induction false} SelectUnique(wanted: seq<string>, present: seq<string>, s: seq<string>)
    requires Distinct(wanted)
    requires IsSubsequence(s, wanted)
    requires forall x :: x in s <==> x in wanted && x in present
    ensures s == Select(wanted, present)
  {
    if wanted == [] {
      assert s == [];
    } else {
      var w0 := wanted[0];
      assert w0 !in wanted[1..] by {
        forall k | 0 <= k < |wanted[1..]| ensures wanted[1..][k] != w0 {
          assert wanted[1..][k] == wanted[k + 1];
        }
      }
      assert Distinct(wanted[1..]) by {
        forall i, j | 0 <= i < j < |wanted[1..]| ensures wanted[1..][i] != wanted[1..][j] {
          assert wanted[1..][i] == wanted[i + 1] && wanted[1..][j] == wanted[j + 1];
        }
      }
      if s == [] {
        assert w0 in wanted;
        forall x | x in wanted[1..] ensures x !in present {
          assert x in wanted;
        }
        SelectUnique(wanted[1..], present, s);
      } else if s[0] == w0 {
        SubsequenceMembers(s[1..], wanted[1..]);
        forall x ensures x in s[1..] <==> x in wanted[1..] && x in present {
          if x in s[1..] {
            assert x in s;
          }
          if x in wanted[1..] && x in present {
            assert x in s;
            assert x != s[0];
          }
        }
        assert s[0] in s;
        SelectUnique(wanted[1..], present, s[1..]);
        assert s == [s[0]] + s[1..];
      } else {
        SubsequenceMembers(s, wanted[1..]);
        assert w0 !in present;
        forall x ensures x in s <==> x in wanted[1..] && x in present {
          if x in wanted[1..] {
            assert x in wanted;
          }
        }
        SelectUnique(wanted[1..], present, s);
      }
    }
  }

  /** Selecting from an earlier selection: when every candidate was wanted,
      testing membership in the selection is the same as testing it in the
      full list of present names. */
  lemma {:induction false} SelectOfSelection(candidates: seq<string>, wanted: seq<string>, present: seq<string>)
    requires forall x :: x in candidates ==> x in wanted
    ensures Select(candidates, Select(wanted, present)) == Select(candidates, present)
  {
    if candidates != [] {
      assert candidates[0] in candidates;
      SelectOfSelection(candidates[1..], wanted, present);
    }
  }

  /** In a list without repetitions, an element occurs once or not at all. */
  lemma {:induction false} DistinctCount(s: seq<string>, x: string)
    requires Distinct(s)
    ensures multiset(s)[x] == if x in s then 1 else 0
  {
    if s != [] {
      assert Distinct(s[1..]) by {
        forall i, j | 0 <= i < j < |s[1..]| ensures s[1..][i] != s[1..][j] {
          assert s[1..][i] == s[i + 1] && s[1..][j] == s[j + 1];
        }
      }
      assert s[0] !in s[1..] by {
        forall k | 0 <= k < |s[1..]| ensures s[1..][k] != s[0] {
          assert s[1..][k] == s[k + 1];
        }
      }
      DistinctCount(s[1..], x);
      assert s == [s[0]] + s[1..];
      assert multiset(s) == multiset([s[0]]) + multiset(s[1..]);
    }
  }
}
