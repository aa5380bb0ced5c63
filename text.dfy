/** The JavaScript string primitives the dashboard relies on:
    `trim`, `split` on one character, joining, and `replace`. */
module Text {

  /** JavaScript's WhiteSpace and LineTerminator code points, the set
      `String.prototype.trim` and `parseFloat` skip. */
  predicate IsWhite(c: char) {
    var n := c as int;
    n == 0x09 || n == 0x0A || n == 0x0B || n == 0x0C || n == 0x0D || n == 0x20 ||
    n == 0xA0 || n == 0x1680 || (0x2000 <= n <= 0x200A) || n == 0x2028 || n == 0x2029 ||
    n == 0x202F || n == 0x205F || n == 0x3000 || n == 0xFEFF
  }

  /** Every character is white space (the empty string included). */
  predicate IsBlank(s: string) {
    forall k :: 0 <= k < |s| ==> IsWhite(s[k])
  }

  /** `s` with its leading white space removed. */
  function TrimStart(s: string): (r: string)
    ensures |r| <= |s| && r == s[|s| - |r|..]
    ensures r == [] || !IsWhite(r[0])
    ensures IsBlank(s[..|s| - |r|])
  {
    if s != [] && IsWhite(s[0]) then TrimStart(s[1..]) else s
  }

  /** `s` with its trailing white space removed. */
  function TrimEnd(s: string): (r: string)
    ensures |r| <= |s| && r == s[..|r|]
    ensures r == [] || !IsWhite(r[|r| - 1])
    ensures IsBlank(s[|r|..])
  {
    if s != [] && IsWhite(s[|s| - 1]) then
      var r := TrimEnd(s[..|s| - 1]);
      assert s[|r|..] == s[..|s| - 1][|r|..] + [s[|s| - 1]];
      r
    else s
  }

  /** `String.prototype.trim`. */
  function Trim(s: string): string {
    TrimEnd(TrimStart(s))
  }

  /** A string is blank exactly when trimming leaves nothing. */
  lemma TrimBlank(s: string)
    ensures Trim(s) == [] <==> IsBlank(s)
  {
    var t := TrimStart(s);
    if Trim(s) == [] {
      assert s == s[..|s| - |t|] + t;
      assert IsBlank(t[0..]);
    }
  }

  /** Trimming keeps a contiguous piece of the input, so it adds no character. */
  lemma TrimInside(s: string, c: char)
    requires c !in s
    ensures c !in Trim(s)
  {
    var r := TrimStart(s);
    var t := TrimEnd(r);
    forall k | 0 <= k < |t|
      ensures t[k] != c
    {
      assert t[k] == r[k] == s[|s| - |r| + k];
    }
  }

  /** `t` is the slice of `s` starting at `i` with only white space around
      it, and neither starts nor ends with white space. */
  predicate TrimmedAt(t: string, s: string, i: nat) {
    i + |t| <= |s| && t == s[i..i + |t|] && IsBlank(s[..i]) && IsBlank(s[i + |t|..]) &&
    (t == [] || (!IsWhite(t[0]) && !IsWhite(t[|t| - 1])))
  }

  /** `t` is what `trim()` leaves of `s`. */
  ghost predicate TrimmedFrom(t: string, s: string) {
    exists i: nat :: TrimmedAt(t, s, i)
  }

  /** `Trim` removes white space at both ends and nothing else. */
  lemma TrimSlice(s: string)
    ensures TrimmedFrom(Trim(s), s)
  {
    var r := TrimStart(s);
    var t := TrimEnd(r);
    TrimmedAtOf(s, r, t);
  }

  /** Cutting blank text off the front of `s`, giving `r`, and then off the
      back of `r`, giving `t`, leaves `t` trimmed from `s`. */
  lemma TrimmedAtOf(s: string, r: string, t: string)
    requires |r| <= |s| && r == s[|s| - |r|..] && IsBlank(s[..|s| - |r|])
    requires r == [] || !IsWhite(r[0])
    requires |t| <= |r| && t == r[..|t|] && IsBlank(r[|t|..])
    requires t == [] || !IsWhite(t[|t| - 1])
    ensures TrimmedAt(t, s, |s| - |r|)
  {
    var i := |s| - |r|;
    assert t == s[i..i + |t|];
    assert s[i + |t|..] == r[|t|..];
    assert t != [] ==> t[0] == r[0];
  }

  /** At most one string is trimmed from `s`, so `TrimmedFrom` characterises `Trim`. */
  lemma TrimmedFromUnique(t: string, u: string, s: string)
    requires TrimmedFrom(t, s) && TrimmedFrom(u, s)
    ensures t == u
  {
    var i: nat :| TrimmedAt(t, s, i);
    var j: nat :| TrimmedAt(u, s, j);
    if t == [] || u == [] {
      TrimmedEmpty(t, u, s, i, j);
    } else {
      TrimmedSameStart(t, u, s, i, j);
      TrimmedSameStart(u, t, s, j, i);
      TrimmedSameEnd(t, u, s, i, j);
      TrimmedSameEnd(u, t, s, j, i);
    }
  }

  /** A non-empty trimmed slice cannot start inside the white space before another one. */
  lemma TrimmedSameStart(t: string, u: string, s: string, i: nat, j: nat)
    requires TrimmedAt(t, s, i) && TrimmedAt(u, s, j) && t != []
    ensures j <= i
  {
    if i < j {
      assert false;
    }
  }

  /** A non-empty trimmed slice cannot end inside the white space after another one. */
  lemma TrimmedSameEnd(t: string, u: string, s: string, i: nat, j: nat)
    requires TrimmedAt(t, s, i) && TrimmedAt(u, s, j) && t != []
    ensures i + |t| <= j + |u|
  {
    if j + |u| < i + |t| {
      assert false;
    }
  }

  /** When one trimmed slice is empty, `s` is blank and so is the other. */
  lemma TrimmedEmpty(t: string, u: string, s: string, i: nat, j: nat)
    requires TrimmedAt(t, s, i) && TrimmedAt(u, s, j) && (t == [] || u == [])
    ensures t == u
  {
    if t == [] && u != [] {
      assert false;
    } else if u == [] && t != [] {
      assert false;
    }
  }

  /** Number of occurrences of `c` in `s`. */
  function Count(s: string, c: char): nat {
    if s == [] then 0 else Count(s[..|s| - 1], c) + (if s[|s| - 1] == c then 1 else 0)
  }

  lemma {:induction false} CountAbsent(s: string, c: char)
    requires c !in s
    ensures Count(s, c) == 0
  {
    if s != [] {
      CountAbsent(s[..|s| - 1], c);
    }
  }

  /** `s` without any character of `cs` (a global regular-expression
      `replace` of a character class by the empty string). */
  function Remove(s: string, cs: set<char>): (r: string)
    ensures forall k :: 0 <= k < |r| ==> r[k] !in cs
  {
    if s == [] then [] else (if s[0] in cs then [] else [s[0]]) + Remove(s[1..], cs)
  }

  /** Removal works character by character, so it can be read off from the end. */
  lemma {:induction false} RemoveSnoc(s: string, c: char, cs: set<char>)
    ensures Remove(s + [c], cs) == Remove(s, cs) + (if c in cs then [] else [c])
  {
    if s != [] {
      assert (s + [c])[1..] == s[1..] + [c];
      RemoveSnoc(s[1..], c, cs);
    }
  }

  /** Index of the first `c` in `s`, or `|s|` when there is none. */
  function Find(s: string, c: char): (k: nat)
    ensures k <= |s| && c !in s[..k] && (k < |s| ==> s[k] == c)
  {
    if s == [] then 0
    else if s[0] == c then 0
    else
      var k := 1 + Find(s[1..], c);
      assert s[..k] == [s[0]] + s[1..][..k - 1];
      k
  }

  /** `s.replace(c, '')` with a one-character string pattern: only the first
      occurrence goes. */
  function RemoveFirst(s: string, c: char): string {
    if s == [] then []
    else if s[0] == c then s[1..]
    else [s[0]] + RemoveFirst(s[1..], c)
  }

  /** Removing a character adds no character. */
  lemma {:induction false} RemoveFirstKeeps(s: string, c: char)
    ensures forall x :: x in RemoveFirst(s, c) ==> x in s
  {
    if s != [] && s[0] != c {
      RemoveFirstKeeps(s[1..], c);
    }
  }

  /** Removing the first `c` deletes exactly the character at the first `c`,
      and leaves a string without `c` alone. */
  lemma {:induction false} RemoveFirstSpec(s: string, c: char)
    ensures RemoveFirst(s, c) == if Find(s, c) < |s| then s[..Find(s, c)] + s[Find(s, c) + 1..] else s
  {
    if s != [] && s[0] != c {
      RemoveFirstSpec(s[1..], c);
      var k := Find(s[1..], c);
      if k < |s[1..]| {
        assert s[..k + 1] == [s[0]] + s[1..][..k];
        assert s[k + 2..] == s[1..][k + 1..];
      }
    }
  }

  /** `parts` separated by `sep` (`Array.prototype.join` with a one-character separator). */
  function Join(parts: seq<string>, sep: char): string {
    if |parts| <= 1 then (if parts == [] then "" else parts[0])
    else Join(parts[..|parts| - 1], sep) + [sep] + parts[|parts| - 1]
  }

  lemma JoinSnoc(parts: seq<string>, p: string, sep: char)
    requires parts != []
    ensures Join(parts + [p], sep) == Join(parts, sep) + [sep] + p
  {
    assert (parts + [p])[..|parts|] == parts;
  }

  /** Appending a character to the last part appends it to the joined string. */
  lemma JoinExtendLast(parts: seq<string>, c: char, sep: char)
    requires parts != []
    ensures var n := |parts|;
            Join(parts[..n - 1] + [parts[n - 1] + [c]], sep) == Join(parts, sep) + [c]
  {
    var n := |parts|;
    if n > 1 {
      JoinSnoc(parts[..n - 1], parts[n - 1] + [c], sep);
      assert parts[..n - 1] == parts[..n - 1][..n - 1];
    }
  }

  /** `s.split(sep)` for a one-character separator: the pieces between the
      separators, always at least one. */
  function Split(s: string, sep: char): (parts: seq<string>)
    ensures |parts| >= 1
  {
    if s == [] then [""]
    else
      var p := Split(s[..|s| - 1], sep);
      var c := s[|s| - 1];
      if c == sep then p + [""] else p[..|p| - 1] + [p[|p| - 1] + [c]]
  }

  /** `split` and `join` are inverse: joining the pieces gives back the input,
      no piece holds the separator, and there is one piece more than there
      are separators. */
  lemma {:induction false} SplitJoin(s: string, sep: char)
    ensures Join(Split(s, sep), sep) == s
    ensures forall k :: 0 <= k < |Split(s, sep)| ==> sep !in Split(s, sep)[k]
    ensures |Split(s, sep)| == 1 + Count(s, sep)
  {
    if s != [] {
      var init, c := s[..|s| - 1], s[|s| - 1];
      assert s == init + [c];
      SplitJoin(init, sep);
      var p := Split(init, sep);
      if c == sep {
        JoinSnoc(p, "", sep);
      } else {
        JoinExtendLast(p, c, sep);
      }
    }
  }
}
