/** The string operations the frontend (`toLowerCase`, `startsWith`,
    `includes`) and the backend (`lower()`, `keyword in name`) rely on.
    Lower-casing is ASCII only. */
module Text {

  function LowerChar(c: char): char
  {
    if 'A' <= c <= 'Z' then (c as int + 32) as char else c
  }

  predicate IsLowerChar(c: char)
  {
    !('A' <= c <= 'Z')
  }

  /** `s.toLowerCase()` / `s.lower()`: the same length, and no upper-case letter left. */
  function Lower(s: string): (r: string)
    ensures |r| == |s|
    ensures forall i :: 0 <= i < |r| ==> IsLowerChar(r[i])
  {
    seq(|s|, i requires 0 <= i < |s| => LowerChar(s[i]))
  }

  /** `s.startsWith(p)`. */
  predicate StartsWith(s: string, p: string)
  {
    |p| <= |s| && s[..|p|] == p
  }

  /** `s.includes(p)` / `p in s`: `p` occurs in `s` at some position. */
  predicate Includes(s: string, p: string)
    decreases |s|
  {
    StartsWith(s, p) || (s != [] && Includes(s[1..], p))
  }

  /** `p` occurs in `s` starting at offset `k`. */
  predicate OccursAt(s: string, p: string, k: int)
  {
    0 <= k && k + |p| <= |s| && s[k..k + |p|] == p
  }

  /** `Includes` holds exactly when `p` occurs at some offset of `s`. */
  lemma {:induction false} IncludesIffOccurs(s: string, p: string)
    ensures Includes(s, p) <==> exists k :: OccursAt(s, p, k)
    decreases |s|
  {
    if s == [] {
      if exists k :: OccursAt(s, p, k) {
        var k :| OccursAt(s, p, k);
        assert k == 0 && p == [];
      }
      if p == [] {
        assert OccursAt(s, p, 0);
      }
    } else {
      IncludesIffOccurs(s[1..], p);
      if StartsWith(s, p) {
        assert OccursAt(s, p, 0);
      }
      if Includes(s[1..], p) {
        var k :| OccursAt(s[1..], p, k);
        assert s[k + 1..k + 1 + |p|] == s[1..][k..k + |p|];
        assert OccursAt(s, p, k + 1);
      }
      if exists k :: OccursAt(s, p, k) {
        var k :| OccursAt(s, p, k);
        if k > 0 {
          assert s[1..][k - 1..k - 1 + |p|] == s[k..k + |p|];
          assert OccursAt(s[1..], p, k - 1);
        }
      }
    }
  }

  /** A non-empty string whose first character does not occur in `s` does not occur in `s`. */
  lemma {:induction false} FirstCharMissing(s: string, p: string)
    requires p != [] && p[0] !in s
    ensures !Includes(s, p)
    decreases |s|
  {
    if s != [] {
      FirstCharMissing(s[1..], p);
      if |p| <= |s| {
        assert s[..|p|][0] == s[0];
      }
    }
  }

  /** A string missing some character of `p` does not contain `p`. */
  lemma {:induction false} CharMissing(s: string, p: string, k: int)
    requires 0 <= k < |p| && p[k] !in s
    ensures !Includes(s, p)
  {
    IncludesIffOccurs(s, p);
    forall j | 0 <= j && j + |p| <= |s| ensures !OccursAt(s, p, j) {
      assert s[j + k] in s;
      assert s[j..j + |p|][k] == s[j + k] != p[k];
    }
  }

  /** A string containing `p + q` contains `p`. */
  lemma {:induction false} IncludesPrefix(s: string, p: string, q: string)
    requires Includes(s, p + q)
    ensures Includes(s, p)
    decreases |s|
  {
    if StartsWith(s, p + q) {
      assert s[..|p|] == (p + q)[..|p|] == p;
    } else {
      IncludesPrefix(s[1..], p, q);
    }
  }

  /** A string that starts with `p` contains `p`. */
  lemma StartsWithMeansIncludes(s: string, p: string)
    ensures StartsWith(s, p) ==> Includes(s, p)
  {
  }

  lemma EmptyIsIncluded(s: string)
    ensures Includes(s, [])
  {
  }

  lemma {:induction false} LowerIdempotent(s: string)
    ensures Lower(Lower(s)) == Lower(s)
  {
    var l := Lower(s);
    forall i | 0 <= i < |s| ensures Lower(l)[i] == l[i] {
      assert IsLowerChar(l[i]);
    }
  }

  lemma {:induction false} LowerAppend(a: string, b: string)
    ensures Lower(a + b) == Lower(a) + Lower(b)
  {
    forall i | 0 <= i < |a + b| ensures Lower(a + b)[i] == (Lower(a) + Lower(b))[i] {
      if i < |a| {
        assert (a + b)[i] == a[i];
      } else {
        assert (a + b)[i] == b[i - |a|];
      }
    }
  }

  /** A string without upper-case letters is its own lower-case form. */
  lemma {:induction false} LowerOfLowerCase(s: string)
    requires forall i :: 0 <= i < |s| ==> IsLowerChar(s[i])
    ensures Lower(s) == s
  {
    forall i | 0 <= i < |s| ensures Lower(s)[i] == s[i] {
      assert IsLowerChar(s[i]);
    }
  }
}
