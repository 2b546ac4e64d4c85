/** The per-string helpers the cleaner applies: ASCII lower-casing (what `str.lower`
    does to an ASCII header) and removal of every occurrence of a literal
    (what `str.replace(unit, '')` does). */
module Text {

  predicate IsUpper(c: char) {
    'A' <= c <= 'Z'
  }

  function LowerChar(c: char): char {
    if IsUpper(c) then (c as int + 32) as char else c
  }

  /** A string with no ASCII upper-case letter. */
  predicate IsLowerText(s: string) {
    forall i :: 0 <= i < |s| ==> !IsUpper(s[i])
  }

  /** ASCII lower-casing, one character at a time. */
  function Lower(s: string): (r: string)
    ensures |r| == |s| && IsLowerText(r)
    ensures forall i :: 0 <= i < |s| ==> r[i] == s[i] || (IsUpper(s[i]) && r[i] as int == s[i] as int + 32)
  {
    seq(|s|, i requires 0 <= i < |s| => LowerChar(s[i]))
  }

  /** Two strings equal up to ASCII case. */
  predicate SameIgnoringCase(s: string, t: string) {
    Lower(s) == Lower(t)
  }

  lemma LowerIsLower(s: string)
    ensures |Lower(s)| == |s|
    ensures IsLowerText(Lower(s))
    ensures forall i :: 0 <= i < |s| && !IsUpper(s[i]) ==> Lower(s)[i] == s[i]
  {
  }

  /** Lower-casing is idempotent. */
  lemma LowerIdempotent(s: string)
    ensures Lower(Lower(s)) == Lower(s)
  {
    LowerIsLower(s);
  }

  /** Lower-casing leaves a string unchanged exactly when it is already lower case. */
  lemma LowerFixedIff(s: string)
    ensures Lower(s) == s <==> IsLowerText(s)
  {
    if Lower(s) == s {
      forall i | 0 <= i < |s| ensures !IsUpper(s[i]) {
        assert Lower(s)[i] == s[i];
      }
    }
  }

  /** "Ram", "RAM" and "ram" all name the same column once lower-cased. */
  lemma RamHeaderVariants()
    ensures Lower("Ram") == "ram" && Lower("RAM") == "ram" && Lower("rAm") == "ram"
    ensures !SameIgnoringCase("Ram", "ram_gb")
  {
    assert Lower("Ram")[0] == 'r';
    assert Lower("RAM")[1] == 'a' && Lower("RAM")[2] == 'm' && Lower("RAM")[0] == 'r';
    assert Lower("rAm")[1] == 'a';
    assert |Lower("ram_gb")| == 6;
  }

  predicate StartsWith(s: string, p: string) {
    |p| <= |s| && s[..|p|] == p
  }

  predicate OccursAt(s: string, p: string, i: int) {
    0 <= i && i + |p| <= |s| && s[i..i + |p|] == p
  }

  predicate Contains(s: string, p: string) {
    exists i :: 0 <= i <= |s| && OccursAt(s, p, i)
  }

  /** `s.replace(p, '')`: scan from the left; where `p` starts, drop it and
      continue after it, otherwise keep the character. One pass only. */
  function RemoveAll(s: string, p: string): (r: string)
    requires p != []
    ensures |r| <= |s|
    ensures |r| == |s| ==> r == s
    decreases |s|
  {
    if s == [] then []
    else if StartsWith(s, p) then RemoveAll(s[|p|..], p)
    else [s[0]] + RemoveAll(s[1..], p)
  }

  /** `s.split(p)`: the pieces between the leftmost non-overlapping occurrences. */
  function Split(s: string, p: string): (pieces: seq<string>)
    requires p != []
    ensures |pieces| >= 1
    decreases |s|
  {
    if s == [] then [[]]
    else if StartsWith(s, p) then [[]] + Split(s[|p|..], p)
    else
      var rest := Split(s[1..], p);
      [[s[0]] + rest[0]] + rest[1..]
  }

  /** `p.join(pieces)`. */
  function Join(pieces: seq<string>, p: string): string
    requires |pieces| >= 1
  {
    if |pieces| == 1 then pieces[0] else pieces[0] + p + Join(pieces[1..], p)
  }

  /** `''.join(pieces)`. */
  function Concat(pieces: seq<string>): string {
    if pieces == [] then [] else pieces[0] + Concat(pieces[1..])
  }

  /** Gluing `x` onto the first piece glues it onto the joined string. */
  lemma JoinGlueFirst(x: string, pieces: seq<string>, p: string)
    requires |pieces| >= 1
    ensures Join([x + pieces[0]] + pieces[1..], p) == x + Join(pieces, p)
  {
    var glued := [x + pieces[0]] + pieces[1..];
    if |pieces| > 1 {
      assert glued[1..] == pieces[1..];
      assert Join(glued, p) == (x + pieces[0]) + p + Join(pieces[1..], p);
    }
  }

  /** Splitting at `p` and joining again with `p` gives back the string. */
  lemma {:induction false} JoinSplit(s: string, p: string)
    requires p != []
    ensures Join(Split(s, p), p) == s
    decreases |s|
  {
    if s == [] {
    } else if StartsWith(s, p) {
      JoinSplit(s[|p|..], p);
      var rest := Split(s[|p|..], p);
      assert Split(s, p) == [[]] + rest;
      assert ([[]] + rest)[1..] == rest;
      assert s == p + s[|p|..];
    } else {
      JoinSplit(s[1..], p);
      var rest := Split(s[1..], p);
      assert Split(s, p) == [[s[0]] + rest[0]] + rest[1..];
      JoinGlueFirst([s[0]], rest, p);
      assert s == [s[0]] + s[1..];
    }
  }

  /** Removing every `p` is splitting at `p` and concatenating the pieces. */
  lemma {:induction false} RemoveAllIsConcatSplit(s: string, p: string)
    requires p != []
    ensures RemoveAll(s, p) == Concat(Split(s, p))
    decreases |s|
  {
    if s == [] {
    } else if StartsWith(s, p) {
      RemoveAllIsConcatSplit(s[|p|..], p);
      var rest := Split(s[|p|..], p);
      assert ([[]] + rest)[1..] == rest;
    } else {
      RemoveAllIsConcatSplit(s[1..], p);
      var rest := Split(s[1..], p);
      var pieces := [[s[0]] + rest[0]] + rest[1..];
      assert pieces[1..] == rest[1..];
      assert Concat(rest) == rest[0] + Concat(rest[1..]);
    }
  }

  /** The first piece of a split is a prefix of the string. */
  lemma {:induction false} SplitHeadIsPrefix(s: string, p: string)
    requires p != []
    ensures |Split(s, p)[0]| <= |s| && Split(s, p)[0] == s[..|Split(s, p)[0]|]
    decreases |s|
  {
    if s != [] && !StartsWith(s, p) {
      SplitHeadIsPrefix(s[1..], p);
    }
  }

  /** An occurrence inside a prefix is an occurrence in the whole string. */
  lemma OccursInPrefix(s: string, n: nat, p: string, i: int)
    requires n <= |s| && 0 <= i && i + |p| <= n
    ensures OccursAt(s[..n], p, i) <==> OccursAt(s, p, i)
  {
    assert s[..n][i..i + |p|] == s[i..i + |p|];
  }

  /** Dropping the first character shifts every later occurrence by one. */
  lemma OccursShift(s: string, p: string, i: int)
    requires s != [] && i >= 1
    ensures OccursAt(s, p, i) <==> OccursAt(s[1..], p, i - 1)
  {
    if i + |p| <= |s| {
      assert s[1..][i - 1..i - 1 + |p|] == s[i..i + |p|];
    }
  }

  /** No piece of a split contains the separator. */
  lemma {:induction false} SplitPiecesAreFree(s: string, p: string)
    requires p != []
    ensures forall k :: 0 <= k < |Split(s, p)| ==> !Contains(Split(s, p)[k], p)
    decreases |s|
  {
    if s == [] {
      assert Split(s, p) == [[]];
    } else if StartsWith(s, p) {
      SplitPiecesAreFree(s[|p|..], p);
      var rest := Split(s[|p|..], p);
      assert Split(s, p) == [[]] + rest;
    } else {
      SplitPiecesAreFree(s[1..], p);
      SplitHeadIsPrefix(s[1..], p);
      var rest := Split(s[1..], p);
      var head := [s[0]] + rest[0];
      assert Split(s, p) == [head] + rest[1..];
      assert head == s[..|head|];
      assert !Contains(head, p) by {
        forall i | 0 <= i <= |head| ensures !OccursAt(head, p, i) {
          if i + |p| <= |head| {
            OccursInPrefix(s, |head|, p, i);
            if i == 0 {
              assert s[..|p|] == s[0..|p|];
            } else {
              OccursShift(head, p, i);
              assert head[1..] == rest[0];
            }
          }
        }
      }
    }
  }

  /** The removal leaves the string unchanged exactly when the literal does not occur in it. */
  lemma {:induction false} RemoveAllUnchangedIff(s: string, p: string)
    requires p != []
    ensures RemoveAll(s, p) == s <==> !Contains(s, p)
    decreases |s|
  {
    if s == [] {
      assert forall i :: !OccursAt(s, p, i);
    } else if StartsWith(s, p) {
      assert OccursAt(s, p, 0);
      assert |RemoveAll(s[|p|..], p)| <= |s| - |p| < |s|;
    } else {
      RemoveAllUnchangedIff(s[1..], p);
      var tail := s[1..];
      if Contains(s, p) {
        var i :| 0 <= i <= |s| && OccursAt(s, p, i);
        assert i != 0 by {
          assert s[..|p|] == s[0..|p|];
        }
        OccursShift(s, p, i);
        assert RemoveAll(tail, p) != tail;
        assert RemoveAll(s, p)[1..] == RemoveAll(tail, p);
      } else {
        forall i | 0 <= i <= |tail| && OccursAt(tail, p, i) ensures false {
          OccursShift(s, p, i + 1);
        }
        assert s == [s[0]] + tail;
      }
    }
  }

  /** A prefix free of the literal's first character passes through untouched. */
  lemma {:induction false} RemoveAllSkipsPrefix(x: string, y: string, p: string)
    requires p != []
    requires forall i :: 0 <= i < |x| ==> x[i] != p[0]
    ensures RemoveAll(x + y, p) == x + RemoveAll(y, p)
    decreases |x|
  {
    if x != [] {
      var s := x + y;
      assert s[0] == x[0];
      assert !StartsWith(s, p) by {
        if |p| <= |s| {
          assert s[..|p|][0] == x[0];
        }
      }
      assert RemoveAll(s, p) == [s[0]] + RemoveAll(s[1..], p);
      assert s[1..] == x[1..] + y;
      RemoveAllSkipsPrefix(x[1..], y, p);
      assert x == [x[0]] + x[1..];
    } else {
      assert x + y == y;
    }
  }

  /** A literal at the end of text free of its first character is all the removal takes away. */
  lemma RemoveTrailing(x: string, p: string)
    requires p != []
    requires forall i :: 0 <= i < |x| ==> x[i] != p[0]
    ensures RemoveAll(x + p, p) == x
  {
    RemoveAllSkipsPrefix(x, p, p);
    assert RemoveAll(p, p) == [] by {
      assert StartsWith(p, p) && p[|p|..] == [];
    }
    assert x + [] == x;
  }

  /** The removal is a single pass: what it leaves can contain the literal again. */
  lemma RemoveAllIsSinglePass()
    ensures RemoveAll("GGBB", "GB") == "GB"
    ensures Contains(RemoveAll("GGBB", "GB"), "GB")
  {
    var s := "GGBB";
    assert s[..2] == "GG";
    assert s[1..] == "GBB";
    assert StartsWith("GBB", "GB");
    assert "GBB"[2..] == "B";
    assert !StartsWith("B", "GB");
    assert "B"[1..] == [];
    assert OccursAt("GB", "GB", 0);
  }

  /** Removal is literal and case-sensitive: "gb" is not "GB". */
  lemma RemoveAllIsCaseSensitive()
    ensures RemoveAll("8gb", "GB") == "8gb"
  {
    RemoveAllSkipsPrefix("8gb", [], "GB");
    assert "8gb" + [] == "8gb";
  }
}
