/**
 * The three Python `str` operations the ingestion script relies on, with
 * CPython's semantics: the membership test `sub in s`, `s.replace(pat, repl)`
 * (every occurrence, scanned left to right, never overlapping) and
 * `s.split(sep)` together with its inverse `sep.join(parts)`.
 */
module PyStr {

  /** `sub in s`: `sub` occurs somewhere in `s`; the empty string occurs everywhere. */
  predicate Contains(s: string, sub: string)
    ensures Contains(s, sub) ==> |sub| <= |s|
    decreases |s|
  {
    sub <= s || (s != [] && Contains(s[1..], sub))
  }

  /** `sub` occurs in `s` starting at index `i`. */
  ghost predicate OccursAt(s: string, sub: string, i: int)
  {
    0 <= i && i + |sub| <= |s| && s[i..i + |sub|] == sub
  }

  /** An occurrence found by the scan sits at some index. */
  lemma {:induction false} ContainsHasIndex(s: string, sub: string) returns (i: nat)
    requires Contains(s, sub)
    ensures OccursAt(s, sub, i)
    decreases |s|
  {
    if sub <= s {
      i := 0;
    } else {
      var j := ContainsHasIndex(s[1..], sub);
      assert s[j + 1..j + 1 + |sub|] == s[1..][j..j + |sub|];
      i := j + 1;
    }
  }

  /** The scan finds every occurrence. */
  lemma {:induction false} IndexGivesContains(s: string, sub: string, i: nat)
    requires OccursAt(s, sub, i)
    ensures Contains(s, sub)
    decreases i
  {
    if i > 0 {
      assert s[1..][i - 1..i - 1 + |sub|] == s[i..i + |sub|];
      IndexGivesContains(s[1..], sub, i - 1);
    }
  }

  /** The scanning definition of `in` agrees with "some index starts an occurrence". */
  lemma ContainsIffOccurs(s: string, sub: string)
    ensures Contains(s, sub) <==> exists i: nat :: OccursAt(s, sub, i)
  {
    if Contains(s, sub) {
      var i := ContainsHasIndex(s, sub);
    }
    if i: nat :| OccursAt(s, sub, i) {
      IndexGivesContains(s, sub, i);
    }
  }

  /** Every character of an occurring pattern is a character of the text. */
  lemma ContainsHasChars(s: string, sub: string, k: nat)
    requires Contains(s, sub)
    requires k < |sub|
    ensures sub[k] in s
  {
    var i := ContainsHasIndex(s, sub);
    assert s[i..i + |sub|][k] == s[i + k];
  }

  /** A text lacking one character of a pattern does not contain the pattern. */
  lemma LacksPattern(s: string, pat: string, k: nat)
    requires k < |pat| && pat[k] !in s
    ensures !Contains(s, pat)
  {
    if Contains(s, pat) {
      ContainsHasChars(s, pat, k);
    }
  }

  /** A pattern occurs in a text of its own length only as the whole text. */
  lemma ContainsSameLength(s: string, sub: string)
    requires |s| == |sub|
    ensures Contains(s, sub) ==> s == sub
  {
    if Contains(s, sub) {
      var i := ContainsHasIndex(s, sub);
    }
  }

  /** What occurs in a stretch `part` of a text occurs in the text. */
  lemma ContainsInSlice(s: string, lo: nat, part: string, sub: string)
    requires lo + |part| <= |s| && s[lo..lo + |part|] == part
    requires Contains(part, sub)
    ensures Contains(s, sub)
  {
    var i := ContainsHasIndex(part, sub);
    assert i + |sub| <= |part|;
    forall j | 0 <= j < |sub| ensures s[lo + i..lo + i + |sub|][j] == sub[j] {
      assert s[lo + i + j] == part[i + j];
      assert part[i..i + |sub|][j] == sub[j];
    }
    assert s[lo + i..lo + i + |sub|] == sub;
    IndexGivesContains(s, sub, lo + i);
  }

  /** A single character occurs as a one-character string exactly when it is an element. */
  lemma {:induction false} ContainsChar(s: string, c: char)
    ensures Contains(s, [c]) <==> c in s
    decreases |s|
  {
    if s != [] {
      ContainsChar(s[1..], c);
      assert s == [s[0]] + s[1..];
    }
  }

  /**
   * `s.replace(pat, repl)`: scanning from the left, every occurrence of `pat`
   * is replaced by `repl` and the scan resumes after it. Python also accepts
   * an empty `pat`; the script never passes one.
   */
  function ReplaceAll(s: string, pat: string, repl: string): (r: string)
    requires pat != []
    ensures |repl| <= |pat| ==> |r| <= |s|
    ensures |repl| >= |pat| ==> |r| >= |s|
    decreases |s|
  {
    if s == [] then []
    else if pat <= s then repl + ReplaceAll(s[|pat|..], pat, repl)
    else [s[0]] + ReplaceAll(s[1..], pat, repl)
  }

  /** `s.split(sep)` for a non-empty separator: the pieces between occurrences, at least one. */
  function Split(s: string, sep: string): (parts: seq<string>)
    requires sep != []
    ensures |parts| >= 1
    decreases |s|
  {
    if s == [] then [[]]
    else if sep <= s then [[]] + Split(s[|sep|..], sep)
    else
      var rest := Split(s[1..], sep);
      [[s[0]] + rest[0]] + rest[1..]
  }

  /** `sep.join(parts)`. */
  function Join(parts: seq<string>, sep: string): string
    decreases |parts|
  {
    if parts == [] then []
    else if |parts| == 1 then parts[0]
    else parts[0] + sep + Join(parts[1..], sep)
  }

  /** Putting a character in front of the first part puts it in front of the joined text. */
  lemma JoinConsHead(c: char, p: string, ps: seq<string>, sep: string)
    ensures Join([[c] + p] + ps, sep) == [c] + Join([p] + ps, sep)
  {
    assert ([[c] + p] + ps)[1..] == ps;
    assert ([p] + ps)[1..] == ps;
  }

  /** Python's identity `s.replace(pat, repl) == repl.join(s.split(pat))`. */
  lemma {:induction false} ReplaceAllIsJoinOfSplit(s: string, pat: string, repl: string)
    requires pat != []
    ensures ReplaceAll(s, pat, repl) == Join(Split(s, pat), repl)
    decreases |s|
  {
    if s == [] {
    } else if pat <= s {
      var rest := Split(s[|pat|..], pat);
      assert Split(s, pat) == [[]] + rest;
      assert ReplaceAll(s, pat, repl) == repl + ReplaceAll(s[|pat|..], pat, repl);
      ReplaceAllIsJoinOfSplit(s[|pat|..], pat, repl);
      assert ([[]] + rest)[0] == [] && ([[]] + rest)[1..] == rest;
      assert Join([[]] + rest, repl) == [] + repl + Join(rest, repl);
    } else {
      var rest := Split(s[1..], pat);
      assert Split(s, pat) == [[s[0]] + rest[0]] + rest[1..];
      assert ReplaceAll(s, pat, repl) == [s[0]] + ReplaceAll(s[1..], pat, repl);
      ReplaceAllIsJoinOfSplit(s[1..], pat, repl);
      JoinConsHead(s[0], rest[0], rest[1..], repl);
      assert [rest[0]] + rest[1..] == rest;
    }
  }

  /** Replacing a pattern by itself changes nothing. */
  lemma {:induction false} ReplaceAllSelf(s: string, pat: string)
    requires pat != []
    ensures ReplaceAll(s, pat, pat) == s
    decreases |s|
  {
    if s == [] {
    } else if pat <= s {
      ReplaceAllSelf(s[|pat|..], pat);
      assert s == pat + s[|pat|..];
    } else {
      ReplaceAllSelf(s[1..], pat);
      assert s == [s[0]] + s[1..];
    }
  }

  /** Joining the pieces of a split with the same separator gives back the text. */
  lemma SplitThenJoin(s: string, sep: string)
    requires sep != []
    ensures Join(Split(s, sep), sep) == s
  {
    ReplaceAllIsJoinOfSplit(s, sep, sep);
    ReplaceAllSelf(s, sep);
  }

  /** Text without an occurrence of the pattern is left as it is. */
  lemma {:induction false} ReplaceAllAbsent(s: string, pat: string, repl: string)
    requires pat != []
    requires !Contains(s, pat)
    ensures ReplaceAll(s, pat, repl) == s
    decreases |s|
  {
    if s != [] {
      ReplaceAllAbsent(s[1..], pat, repl);
      assert s == [s[0]] + s[1..];
    }
  }

  /** A pattern that starts a text and runs past `a` contains the first character after `a`. */
  lemma OccurrenceReachesNext(pat: string, a: string, b: string)
    requires pat <= a + b
    requires |pat| > |a|
    ensures b[0] in pat
  {
    assert pat[|a|] == b[0];
  }

  /**
   * When the text after a cut starts with a character the pattern lacks, no
   * occurrence can straddle the cut, so the two sides are rewritten apart.
   */
  lemma {:induction false} ReplaceAllConcat(a: string, b: string, pat: string, repl: string)
    requires pat != []
    requires b == [] || b[0] !in pat
    ensures ReplaceAll(a + b, pat, repl) == ReplaceAll(a, pat, repl) + ReplaceAll(b, pat, repl)
    decreases |a|
  {
    if a == [] {
      assert a + b == b;
    } else if pat <= a + b {
      if |pat| > |a| {
        OccurrenceReachesNext(pat, a, b);
        assert false;
      }
      assert (a + b)[..|pat|] == a[..|pat|];
      assert (a + b)[|pat|..] == a[|pat|..] + b;
      ReplaceAllConcat(a[|pat|..], b, pat, repl);
    } else {
      assert !(pat <= a);
      assert (a + b)[1..] == a[1..] + b;
      ReplaceAllConcat(a[1..], b, pat, repl);
    }
  }

  /** A leading stretch without the pattern's first character is copied unchanged. */
  lemma {:induction false} ReplaceAllSkipsFree(a: string, b: string, pat: string, repl: string)
    requires pat != []
    requires pat[0] !in a
    ensures ReplaceAll(a + b, pat, repl) == a + ReplaceAll(b, pat, repl)
    decreases |a|
  {
    if a == [] {
      assert a + b == b;
    } else {
      assert (a + b)[0] == a[0];
      assert (a + b)[1..] == a[1..] + b;
      ReplaceAllSkipsFree(a[1..], b, pat, repl);
    }
  }

  /**
   * A leading stretch that lacks the pattern's second character and does not
   * end in its first one holds no start of an occurrence, so it is copied.
   */
  lemma {:induction false} ReplaceAllSkipsStretch(a: string, b: string, pat: string, repl: string)
    requires |pat| >= 2
    requires pat[1] !in a
    requires a == [] || a[|a| - 1] != pat[0]
    ensures ReplaceAll(a + b, pat, repl) == a + ReplaceAll(b, pat, repl)
    decreases |a|
  {
    if a == [] {
      assert a + b == b;
    } else {
      if |a| == 1 {
        assert (a + b)[0] == a[0];
      } else {
        assert (a + b)[1] == a[1];
        assert a[1..][|a| - 2] == a[|a| - 1];
      }
      assert !(pat <= a + b);
      assert (a + b)[1..] == a[1..] + b;
      ReplaceAllSkipsStretch(a[1..], b, pat, repl);
      assert a == [a[0]] + a[1..];
    }
  }

  /** Splitting on one character yields one more piece than there are separators. */
  lemma {:induction false} SplitCount(s: string, c: char)
    ensures |Split(s, [c])| == multiset(s)[c] + 1
    decreases |s|
  {
    if s != [] {
      SplitCount(s[1..], c);
      assert s == [s[0]] + s[1..];
      if [c] <= s {
        assert s[1..] == s[|[c]|..];
      }
    }
  }

  /** No piece of a split on one character contains that character. */
  lemma {:induction false} SplitPartsLackSep(s: string, c: char)
    ensures forall p :: p in Split(s, [c]) ==> c !in p
    decreases |s|
  {
    if s != [] {
      SplitPartsLackSep(s[1..], c);
      var rest := Split(s[1..], [c]);
      if !([c] <= s) {
        assert s[0] != c;
        assert rest[0] in rest;
        forall p | p in rest[1..] ensures c !in p {
          assert p in rest;
        }
      }
    }
  }

  /** Splitting text that begins with a separator-free prefix extends the first piece. */
  lemma {:induction false} SplitAfterFreePrefix(p: string, t: string, c: char)
    requires c !in p
    ensures Split(p + t, [c]) == [p + Split(t, [c])[0]] + Split(t, [c])[1..]
    decreases |p|
  {
    if p == [] {
      assert p + t == t;
      assert p + Split(t, [c])[0] == Split(t, [c])[0];
      assert [Split(t, [c])[0]] + Split(t, [c])[1..] == Split(t, [c]);
    } else {
      assert (p + t)[1..] == p[1..] + t;
      assert p[0] in p;
      assert (p + t)[0] == p[0] != c;
      assert !([c] <= p + t);
      SplitAfterFreePrefix(p[1..], t, c);
      assert [p[0]] + (p[1..] + Split(t, [c])[0]) == p + Split(t, [c])[0];
    }
  }

  /** Splitting the join of comma-free items on the comma gives back the items. */
  lemma {:induction false} JoinThenSplit(parts: seq<string>, c: char)
    requires parts != []
    requires forall p :: p in parts ==> c !in p
    ensures Split(Join(parts, [c]), [c]) == parts
    decreases |parts|
  {
    assert parts[0] in parts;
    if |parts| == 1 {
      SplitAfterFreePrefix(parts[0], [], c);
      assert parts[0] + [] == parts[0];
    } else {
      var tail := parts[1..];
      forall p | p in tail ensures c !in p {
        assert p in parts;
      }
      JoinThenSplit(tail, c);
      var t := [c] + Join(tail, [c]);
      assert Join(parts, [c]) == parts[0] + t;
      assert [c] <= t;
      assert t[|[c]|..] == Join(tail, [c]);
      assert Split(t, [c]) == [[]] + tail;
      assert ([[]] + tail)[0] == [] && ([[]] + tail)[1..] == tail;
      SplitAfterFreePrefix(parts[0], t, c);
      assert parts[0] + [] == parts[0];
      assert parts == [parts[0]] + tail;
    }
  }
}
