/** String primitives the extractor leans on: ASCII whitespace and case,
    substring search, `str.strip()`, and `str.split(sep)` with its inverse. */
module Text {

  /** The characters Python's `str.isspace()` accepts in the ASCII range:
      space, \t \n \x0b \x0c \r, and the separators \x1c-\x1f. */
  predicate IsSpace(c: char) {
    c == ' ' || ('\t' <= c <= '\r') || ('\U{1C}' <= c <= '\U{1F}')
  }

  predicate AllSpace(s: string) {
    forall k | 0 <= k < |s| :: IsSpace(s[k])
  }

  /** No whitespace at either end. */
  predicate IsStripped(s: string) {
    s == [] || (!IsSpace(s[0]) && !IsSpace(s[|s| - 1]))
  }

  function LowerChar(c: char): (d: char)
    ensures 'A' <= c <= 'Z' ==> d as int == c as int + 32
    ensures !('A' <= c <= 'Z') ==> d == c
  {
    if 'A' <= c <= 'Z' then (c as int + 32) as char else c
  }

  /** `str.lower()` restricted to ASCII letters. */
  function Lower(s: string): (r: string)
    ensures |r| == |s|
    ensures forall k | 0 <= k < |s| :: r[k] == LowerChar(s[k])
  {
    seq(|s|, k requires 0 <= k < |s| => LowerChar(s[k]))
  }

  /** `sub` occurs in `s` starting at position `i`. */
  predicate OccursAt(s: string, sub: string, i: nat) {
    i + |sub| <= |s| && s[i..i + |sub|] == sub
  }

  /** Python's `sub in s`, scanning left to right. */
  predicate Contains(s: string, sub: string)
    decreases |s|
  {
    sub <= s || (|s| > 0 && Contains(s[1..], sub))
  }

  /** An occurrence at position `i` is found by the left-to-right scan. */
  lemma {:induction false} OccursContains(s: string, sub: string, i: nat)
    requires OccursAt(s, sub, i)
    ensures Contains(s, sub)
    decreases i
  {
    if i == 0 {
      assert s[..|sub|] == sub;
    } else {
      assert s[1..][i - 1..i - 1 + |sub|] == s[i..i + |sub|];
      OccursContains(s[1..], sub, i - 1);
    }
  }

  /** The scanning definition of `Contains` agrees with "there is a position where it occurs". */
  lemma {:induction false} ContainsIffOccurs(s: string, sub: string)
    ensures Contains(s, sub) <==> exists i: nat :: OccursAt(s, sub, i)
    decreases |s|
  {
    forall i: nat | OccursAt(s, sub, i) ensures Contains(s, sub) {
      OccursContains(s, sub, i);
    }
    if Contains(s, sub) {
      if sub <= s {
        assert OccursAt(s, sub, 0);
      } else {
        ContainsIffOccurs(s[1..], sub);
        var i: nat :| OccursAt(s[1..], sub, i);
        assert s[i + 1..i + 1 + |sub|] == s[1..][i..i + |sub|];
        assert OccursAt(s, sub, i + 1);
      }
    }
  }

  /** Every slice of a string is contained in it. */
  lemma {:induction false} ContainsSlice(s: string, i: nat, j: nat)
    requires i <= j <= |s|
    ensures Contains(s, s[i..j])
  {
    assert OccursAt(s, s[i..j], i);
    ContainsIffOccurs(s, s[i..j]);
  }

  /** A string that starts with `p` contains everything `p` contains. */
  lemma ContainsInLonger(p: string, s: string, sub: string)
    requires p <= s
    ensures Contains(p, sub) ==> Contains(s, sub)
  {
    if Contains(p, sub) {
      ContainsIffOccurs(p, sub);
      var i: nat :| OccursAt(p, sub, i);
      assert s[i..i + |sub|] == p[i..i + |sub|];
      OccursContains(s, sub, i);
    }
  }

  /** A string contains every prefix of each of its suffixes. */
  lemma ContainsStartOfSuffix(s: string, t: string, p: string)
    requires |t| <= |s| && t == s[|s| - |t|..] && p <= t
    ensures Contains(s, p)
  {
    var a := |s| - |t|;
    assert p == s[a..a + |p|];
    ContainsSlice(s, a, a + |p|);
  }

  /** Whitespace in front of whitespace is whitespace. */
  lemma AllSpaceCons(c: char, a: string)
    requires IsSpace(c) && AllSpace(a)
    ensures AllSpace([c] + a)
  {
    assert forall k | 0 < k < |[c] + a| :: ([c] + a)[k] == a[k - 1];
  }

  /** Whitespace behind whitespace is whitespace. */
  lemma AllSpaceSnoc(a: string, c: char)
    requires AllSpace(a) && IsSpace(c)
    ensures AllSpace(a + [c])
  {
    assert forall k | 0 <= k < |a| :: (a + [c])[k] == a[k];
  }

  /** Drops leading whitespace (`str.lstrip()`). */
  function TrimStart(s: string): (r: string)
    ensures |r| <= |s| && r == s[|s| - |r|..]
    ensures r == [] || !IsSpace(r[0])
    ensures AllSpace(s[..|s| - |r|])
    decreases |s|
  {
    if |s| > 0 && IsSpace(s[0]) then
      var r := TrimStart(s[1..]);
      assert s[..|s| - |r|] == [s[0]] + s[1..][..|s| - 1 - |r|];
      AllSpaceCons(s[0], s[1..][..|s| - 1 - |r|]);
      r
    else s
  }

  /** Drops trailing whitespace (`str.rstrip()`). */
  function TrimEnd(s: string): (r: string)
    ensures |r| <= |s| && r == s[..|r|]
    ensures r == [] || !IsSpace(r[|r| - 1])
    ensures AllSpace(s[|r|..])
    decreases |s|
  {
    if |s| > 0 && IsSpace(s[|s| - 1]) then
      var r := TrimEnd(s[..|s| - 1]);
      assert s[|r|..] == s[..|s| - 1][|r|..] + [s[|s| - 1]];
      AllSpaceSnoc(s[..|s| - 1][|r|..], s[|s| - 1]);
      r
    else s
  }

  /** `r` is the slice of `s` starting at `a`, and everything of `s` outside it is whitespace. */
  predicate StrippedAt(s: string, r: string, a: nat) {
    a + |r| <= |s| && r == s[a..a + |r|] && AllSpace(s[..a]) && AllSpace(s[a + |r|..])
  }

  /** `str.strip()`: the result is a slice of `s` with no whitespace at either end,
      and everything cut off on either side is whitespace. */
  function Strip(s: string): (r: string)
    ensures |r| <= |s|
    ensures IsStripped(r)
    ensures exists a: nat :: StrippedAt(s, r, a)
  {
    var t := TrimStart(s);
    var r := TrimEnd(t);
    TrimmedSlice(s, t, r);
    r
  }

  /** Cutting whitespace off the front and then off the back leaves a stripped slice. */
  lemma TrimmedSlice(s: string, t: string, r: string)
    requires |t| <= |s| && t == s[|s| - |t|..] && AllSpace(s[..|s| - |t|])
    requires t == [] || !IsSpace(t[0])
    requires |r| <= |t| && r == t[..|r|] && AllSpace(t[|r|..])
    requires r == [] || !IsSpace(r[|r| - 1])
    ensures StrippedAt(s, r, |s| - |t|) && IsStripped(r)
  {
    var a := |s| - |t|;
    assert s[a + |r|..] == t[|r|..];
    assert r == s[a..a + |r|];
    if r != [] {
      assert r[0] == t[0];
    }
  }

  /** The stripped string occurs in the original. */
  lemma StripContained(s: string)
    ensures Contains(s, Strip(s))
  {
    var r := Strip(s);
    var a: nat :| StrippedAt(s, r, a);
    assert OccursAt(s, r, a);
    OccursContains(s, r, a);
  }

  /** Stripping leaves nothing exactly when the string is all whitespace. */
  lemma StripEmptyIffAllSpace(s: string)
    ensures Strip(s) == [] <==> AllSpace(s)
  {
    var r := Strip(s);
    var a: nat :| StrippedAt(s, r, a);
    if r == [] {
      assert s == s[..a] + s[a..];
      AllSpaceAppend(s[..a], s[a..]);
    } else {
      assert s[a] == r[0];
    }
  }

  lemma AllSpaceAppend(x: string, y: string)
    requires AllSpace(x) && AllSpace(y)
    ensures AllSpace(x + y)
  {
    assert forall k | |x| <= k < |x + y| :: (x + y)[k] == y[k - |x|];
  }

  /** Stripping only removes whitespace: a string with no whitespace at its ends is left alone,
      and stripping twice is stripping once. */
  lemma {:induction false} StripIdempotent(s: string)
    ensures IsStripped(s) ==> Strip(s) == s
    ensures Strip(Strip(s)) == Strip(s)
  {
    var r := Strip(s);
    assert TrimStart(r) == r;
    assert TrimEnd(r) == r;
    if IsStripped(s) {
      assert TrimStart(s) == s;
      assert TrimEnd(s) == s;
    }
  }

  /** Python's `s.split(sep)`: the pieces between the leftmost non-overlapping
      occurrences of `sep`. */
  function Split(s: string, sep: string): (r: seq<string>)
    requires |sep| > 0
    ensures |r| >= 1
    ensures r[0] <= s
    decreases |s|
  {
    if sep <= s then [""] + Split(s[|sep|..], sep)
    else if |s| == 0 then [""]
    else
      var rest := Split(s[1..], sep);
      [[s[0]] + rest[0]] + rest[1..]
  }

  /** `sep.join(parts)`. */
  function Join(parts: seq<string>, sep: string): string
    requires |parts| >= 1
  {
    if |parts| == 1 then parts[0] else parts[0] + sep + Join(parts[1..], sep)
  }

  lemma JoinCons(p: string, rest: seq<string>, sep: string)
    requires |rest| >= 1
    ensures Join([p] + rest, sep) == p + sep + Join(rest, sep)
  {
    assert ([p] + rest)[1..] == rest;
  }

  /** Prepending a character to the first piece prepends it to the joined string. */
  lemma JoinPrependChar(c: char, rest: seq<string>, sep: string)
    requires |rest| >= 1
    ensures Join([[c] + rest[0]] + rest[1..], sep) == [c] + Join(rest, sep)
  {
    if |rest| > 1 {
      var p := [c] + rest[0];
      JoinCons(p, rest[1..], sep);
      JoinCons(rest[0], rest[1..], sep);
      assert rest == [rest[0]] + rest[1..];
      var j := Join(rest[1..], sep);
      assert p + sep + j == [c] + (rest[0] + sep + j);
    }
  }

  /** Joining the pieces with the separator gives back the original string. */
  lemma {:induction false} JoinSplit(s: string, sep: string)
    requires |sep| > 0
    ensures Join(Split(s, sep), sep) == s
    decreases |s|
  {
    if sep <= s {
      JoinSplit(s[|sep|..], sep);
      JoinSplitAtSep(s, sep);
    } else if |s| > 0 {
      JoinSplit(s[1..], sep);
      JoinSplitAtChar(s, sep);
    }
  }

  /** A string that starts with `sep` is `sep` followed by the rest. */
  lemma SepPrefix(s: string, sep: string)
    requires sep <= s
    ensures s == sep + s[|sep|..]
  {
    assert s[..|sep|] == sep;
  }

  /** A nonempty string is its first character followed by the rest. */
  lemma HeadPrefix(s: string)
    requires |s| > 0
    ensures s == [s[0]] + s[1..]
  {
  }

  /** Joining after an empty first piece puts the separator in front. */
  lemma JoinAfterEmpty(pieces: seq<string>, sep: string, t: string)
    requires |pieces| >= 1 && Join(pieces, sep) == t
    ensures Join([""] + pieces, sep) == sep + t
  {
    JoinCons("", pieces, sep);
    assert "" + sep == sep;
  }

  /** Joining after a character prepended to the first piece puts it in front. */
  lemma JoinAfterChar(c: char, pieces: seq<string>, sep: string, t: string)
    requires |pieces| >= 1 && Join(pieces, sep) == t
    ensures Join([[c] + pieces[0]] + pieces[1..], sep) == [c] + t
  {
    JoinPrependChar(c, pieces, sep);
  }

  /** The step of `JoinSplit` where `s` starts with the separator. */
  lemma JoinSplitAtSep(s: string, sep: string)
    requires |sep| > 0 && sep <= s
    requires Join(Split(s[|sep|..], sep), sep) == s[|sep|..]
    ensures Join(Split(s, sep), sep) == s
  {
    var t := s[|sep|..];
    var p := Split(t, sep);
    assert Split(s, sep) == [""] + p;
    JoinAfterEmpty(p, sep, t);
    SepPrefix(s, sep);
  }

  /** The step of `JoinSplit` where `s` starts with an ordinary character. */
  lemma JoinSplitAtChar(s: string, sep: string)
    requires |sep| > 0 && |s| > 0 && !(sep <= s)
    requires Join(Split(s[1..], sep), sep) == s[1..]
    ensures Join(Split(s, sep), sep) == s
  {
    var t := s[1..];
    var p := Split(t, sep);
    assert Split(s, sep) == [[s[0]] + p[0]] + p[1..];
    JoinAfterChar(s[0], p, sep, t);
    HeadPrefix(s);
  }

  /** No piece of a split contains the separator. */
  lemma {:induction false} SplitPiecesAvoidSep(s: string, sep: string)
    requires |sep| > 0
    ensures forall k | 0 <= k < |Split(s, sep)| :: !Contains(Split(s, sep)[k], sep)
    decreases |s|
  {
    var r := Split(s, sep);
    if sep <= s {
      SplitPiecesAvoidSep(s[|sep|..], sep);
      assert !Contains("", sep);
      forall k | 0 <= k < |r| ensures !Contains(r[k], sep) {
        if k > 0 {
          assert r[k] == Split(s[|sep|..], sep)[k - 1];
        }
      }
    } else if |s| == 0 {
      assert !Contains("", sep);
    } else {
      var rest := Split(s[1..], sep);
      SplitPiecesAvoidSep(s[1..], sep);
      var p := [s[0]] + rest[0];
      assert p[1..] == rest[0];
      assert p <= s;
      assert !Contains(p, sep);
      forall k | 0 <= k < |r| ensures !Contains(r[k], sep) {
        if k > 0 {
          assert r[k] == rest[k];
        }
      }
    }
  }

  /** `last` ends `s` and is preceded in `s` by `sep`. */
  predicate FollowsSep(s: string, sep: string, last: string) {
    |last| + |sep| <= |s| && s[|s| - |last|..] == last && s[|s| - |last| - |sep|..|s| - |last|] == sep
  }

  /** A piece that follows a separator in a suffix of `s` follows it in `s` too. */
  lemma FollowsSepInSuffix(s: string, n: nat, sep: string, last: string)
    requires n <= |s| && FollowsSep(s[n..], sep, last)
    ensures FollowsSep(s, sep, last)
  {
    var t := s[n..];
    assert t[|t| - |last|..] == s[|s| - |last|..];
    assert t[|t| - |last| - |sep|..|t| - |last|] == s[|s| - |last| - |sep|..|s| - |last|];
  }

  /** The last piece is what follows the final separator: either it is all of `s`
      (no separator at all) or it ends `s` and the text before it ends with `sep`. */
  lemma {:induction false} SplitLastPiece(s: string, sep: string)
    requires |sep| > 0
    ensures LastPieceFollowsSep(s, sep)
    decreases |s|
  {
    if sep <= s {
      SplitLastPiece(s[|sep|..], sep);
      LastPieceAtSep(s, sep);
    } else if |s| > 0 {
      SplitLastPiece(s[1..], sep);
      LastPieceAtChar(s, sep);
    }
  }

  /** The split of `s` has a single piece, `s` itself, or its last piece follows a
      separator at the end of `s`. */
  predicate LastPieceFollowsSep(s: string, sep: string)
    requires |sep| > 0
  {
    var r := Split(s, sep);
    (|r| == 1 ==> r[0] == s) && (|r| > 1 ==> FollowsSep(s, sep, r[|r| - 1]))
  }

  /** The step of `SplitLastPiece` where `s` starts with the separator. */
  lemma LastPieceAtSep(s: string, sep: string)
    requires |sep| > 0 && sep <= s
    requires LastPieceFollowsSep(s[|sep|..], sep)
    ensures LastPieceFollowsSep(s, sep)
  {
    var t := s[|sep|..];
    var rt := Split(t, sep);
    var r := Split(s, sep);
    assert r == [""] + rt;
    assert r[|r| - 1] == rt[|rt| - 1];
    if |rt| == 1 {
      assert s[..|sep|] == sep;
      assert FollowsSep(s, sep, t);
    } else {
      FollowsSepInSuffix(s, |sep|, sep, rt[|rt| - 1]);
    }
  }

  /** The step of `SplitLastPiece` where `s` starts with an ordinary character. */
  lemma LastPieceAtChar(s: string, sep: string)
    requires |sep| > 0 && |s| > 0 && !(sep <= s)
    requires LastPieceFollowsSep(s[1..], sep)
    ensures LastPieceFollowsSep(s, sep)
  {
    var rest := Split(s[1..], sep);
    var r := Split(s, sep);
    assert r == [[s[0]] + rest[0]] + rest[1..];
    if |rest| == 1 {
      assert r[0] == s by {
        HeadPrefix(s);
      }
    } else {
      assert r[|r| - 1] == rest[|rest| - 1];
      FollowsSepInSuffix(s, 1, sep, rest[|rest| - 1]);
    }
  }

  /** The first piece is what precedes the leftmost separator: it starts `s`, and
      either it is all of `s` or `sep` follows it and occurs nowhere earlier. */
  lemma {:induction false} SplitFirstPiece(s: string, sep: string)
    requires |sep| > 0
    ensures var r := Split(s, sep);
      (|r| == 1 ==> r[0] == s) &&
      (|r| > 1 ==> sep <= s[|r[0]|..]) &&
      (|r| > 1 ==> forall i | 0 <= i < |r[0]| :: !OccursAt(s, sep, i))
    decreases |s|
  {
    var r := Split(s, sep);
    JoinSplit(s, sep);
    if sep <= s {
    } else if |s| == 0 {
    } else {
      var rest := Split(s[1..], sep);
      SplitFirstPiece(s[1..], sep);
      if |rest| == 1 {
        assert s == [s[0]] + s[1..];
      } else {
        assert s[|r[0]|..] == s[1..][|rest[0]|..];
        NoEarlierOccurrence(s, sep, |rest[0]|);
      }
    }
  }

  /** A string that does not start with `sep` and whose tail has no occurrence before
      position `n` has none before position `n + 1`. */
  lemma NoEarlierOccurrence(s: string, sep: string, n: nat)
    requires |s| > 0 && !(sep <= s)
    requires forall i | 0 <= i < n :: !OccursAt(s[1..], sep, i)
    ensures forall i | 0 <= i < n + 1 :: !OccursAt(s, sep, i)
  {
    forall i | 0 <= i < n + 1 ensures !OccursAt(s, sep, i) {
      if i == 0 {
        if |sep| <= |s| {
          assert s[0..|sep|] == s[..|sep|];
        }
      } else {
        assert !OccursAt(s[1..], sep, i - 1);
        if i + |sep| <= |s| {
          assert s[i..i + |sep|] == s[1..][i - 1..i - 1 + |sep|];
        }
      }
    }
  }

  /** Number of occurrences of `c` in `s`. */
  function CountChar(s: string, c: char): nat {
    if |s| == 0 then 0 else (if s[0] == c then 1 else 0) + CountChar(s[1..], c)
  }

  /** Splitting on a one-character separator yields one more piece than there are
      occurrences of that character. */
  lemma {:induction false} SplitCharCount(s: string, c: char)
    ensures |Split(s, [c])| == CountChar(s, c) + 1
    decreases |s|
  {
    if |s| > 0 {
      SplitCharCount(s[1..], c);
      if s[0] == c {
        assert [c] <= s;
        assert s[|[c]|..] == s[1..];
      }
    }
  }
}
