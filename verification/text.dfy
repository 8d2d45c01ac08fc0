/** The parts of Go's `strings` package the services rely on, over strings of characters:
    prefix tests, Contains, ReplaceAll, Split, SplitN(…, 2), Join, and UTF-8 byte length. */
module Text {
  import opened Outcome

  predicate StartsWith(s: string, prefix: string) {
    |prefix| <= |s| && s[..|prefix|] == prefix
  }

  /** strings.Contains: `sub` occurs somewhere in `s`. */
  predicate Contains(s: string, sub: string)
    decreases |s|
  {
    StartsWith(s, sub) || (s != [] && Contains(s[1..], sub))
  }

  lemma {:induction false} ContainsAt(s: string, sub: string, i: nat)
    requires i + |sub| <= |s| && s[i..i + |sub|] == sub
    ensures Contains(s, sub)
    decreases i
  {
    if i > 0 {
      assert s[1..][i - 1..i - 1 + |sub|] == s[i..i + |sub|];
      ContainsAt(s[1..], sub, i - 1);
    }
  }

  /** strings.ReplaceAll: scan left to right, replacing each non-overlapping occurrence of `pat`.
      An empty `pat` matches before every character and at the end. */
  function ReplaceAll(s: string, pat: string, rep: string): string
    decreases |s|
  {
    if pat == [] then
      (if s == [] then rep else rep + [s[0]] + ReplaceAll(s[1..], pat, rep))
    else if |s| < |pat| then s
    else if s[..|pat|] == pat then rep + ReplaceAll(s[|pat|..], pat, rep)
    else [s[0]] + ReplaceAll(s[1..], pat, rep)
  }

  /** strings.Count for a non-empty pattern: the number of matches ReplaceAll replaces. */
  function CountOccurrences(s: string, pat: string): nat
    requires pat != []
    decreases |s|
  {
    if |s| < |pat| then 0
    else if s[..|pat|] == pat then 1 + CountOccurrences(s[|pat|..], pat)
    else CountOccurrences(s[1..], pat)
  }

  /** Replacing a pattern that does not occur leaves the string unchanged. */
  lemma {:induction false} ReplaceAbsent(s: string, pat: string, rep: string)
    requires pat != [] && !Contains(s, pat)
    ensures ReplaceAll(s, pat, rep) == s
    decreases |s|
  {
    if |s| >= |pat| {
      assert s[..|pat|] != pat;
      ReplaceAbsent(s[1..], pat, rep);
    }
  }

  /** Each replaced occurrence changes the length by |rep| - |pat|. */
  lemma {:induction false} ReplaceAllLength(s: string, pat: string, rep: string)
    requires pat != []
    ensures |ReplaceAll(s, pat, rep)| == |s| + CountOccurrences(s, pat) * (|rep| - |pat|)
    decreases |s|
  {
    var k := |rep| - |pat|;
    if |s| < |pat| {
      assert CountOccurrences(s, pat) == 0;
    } else if s[..|pat|] == pat {
      var rest := s[|pat|..];
      var c := CountOccurrences(rest, pat);
      ReplaceAllLength(rest, pat, rep);
      calc {
        |ReplaceAll(s, pat, rep)|;
        |rep| + |ReplaceAll(rest, pat, rep)|;
        |rep| + |rest| + c * k;
        { MulSucc(c, k); }
        |s| + (c + 1) * k;
      }
    } else {
      ReplaceAllLength(s[1..], pat, rep);
    }
  }

  lemma MulSucc(c: int, k: int)
    ensures (c + 1) * k == c * k + k
  {
  }

  /** Replacing a pattern by itself is the identity. */
  lemma {:induction false} ReplaceBySelf(s: string, pat: string)
    ensures ReplaceAll(s, pat, pat) == s
    decreases |s|
  {
    if pat == [] {
      if s != [] { ReplaceBySelf(s[1..], pat); }
    } else if |s| >= |pat| {
      if s[..|pat|] == pat {
        ReplaceBySelf(s[|pat|..], pat);
        assert s == pat + s[|pat|..];
      } else {
        ReplaceBySelf(s[1..], pat);
      }
    }
  }

  /** strings.Split for a non-empty separator, scanning with the field `cur` built so far. */
  function SplitFrom(s: string, sep: string, cur: string): (parts: seq<string>)
    requires sep != []
    ensures |parts| >= 1
    decreases |s|
  {
    if |s| < |sep| then [cur + s]
    else if s[..|sep|] == sep then [cur] + SplitFrom(s[|sep|..], sep, "")
    else SplitFrom(s[1..], sep, cur + [s[0]])
  }

  /** strings.Split: an empty separator splits into single characters (and "" into no parts). */
  function Split(s: string, sep: string): seq<string>
  {
    if sep == [] then seq(|s|, i requires 0 <= i < |s| => [s[i]]) else SplitFrom(s, sep, "")
  }

  /** strings.Join. */
  function Join(parts: seq<string>, sep: string): string
  {
    if parts == [] then ""
    else if |parts| == 1 then parts[0]
    else parts[0] + sep + Join(parts[1..], sep)
  }

  /** strings.Join(parts, ""). */
  function Concat(parts: seq<string>): string
  {
    if parts == [] then "" else parts[0] + Concat(parts[1..])
  }

  lemma {:induction false} JoinSplitFrom(s: string, sep: string, cur: string)
    requires sep != []
    ensures Join(SplitFrom(s, sep, cur), sep) == cur + s
    decreases |s|
  {
    if |s| < |sep| {
    } else if s[..|sep|] == sep {
      JoinSplitFrom(s[|sep|..], sep, "");
      assert s == sep + s[|sep|..];
    } else {
      JoinSplitFrom(s[1..], sep, cur + [s[0]]);
      assert s == [s[0]] + s[1..];
    }
  }

  lemma {:induction false} SplitFromCount(s: string, sep: string, cur: string)
    requires sep != []
    ensures |SplitFrom(s, sep, cur)| == CountOccurrences(s, sep) + 1
    decreases |s|
  {
    if |s| >= |sep| {
      if s[..|sep|] == sep {
        SplitFromCount(s[|sep|..], sep, "");
      } else {
        SplitFromCount(s[1..], sep, cur + [s[0]]);
      }
    }
  }

  /** Splitting on a non-empty separator and joining back gives the input, and there is one
      more part than there are occurrences of the separator. */
  lemma SplitJoinRoundTrip(s: string, sep: string)
    requires sep != []
    ensures Join(Split(s, sep), sep) == s
    ensures |Split(s, sep)| == CountOccurrences(s, sep) + 1
  {
    JoinSplitFrom(s, sep, "");
    SplitFromCount(s, sep, "");
  }

  /** strings.SplitN(s, sep, 2) for a non-empty separator: the text before the first occurrence
      and the text after it, or None when there is no occurrence. */
  function CutFrom(s: string, sep: string, cur: string): (r: Option<(string, string)>)
    requires sep != []
    ensures r.Some? ==> cur + s == r.value.0 + sep + r.value.1
    decreases |s|
  {
    if |s| < |sep| then None
    else if s[..|sep|] == sep then
      assert s == sep + s[|sep|..];
      Some((cur, s[|sep|..]))
    else
      assert cur + s == (cur + [s[0]]) + s[1..];
      CutFrom(s[1..], sep, cur + [s[0]])
  }

  function Cut(s: string, sep: string): Option<(string, string)>
    requires sep != []
  {
    CutFrom(s, sep, "")
  }

  lemma {:induction false} CutFromFirst(s: string, sep: string, cur: string)
    requires sep != []
    ensures CutFrom(s, sep, cur).None? <==> !Contains(s, sep)
    ensures CutFrom(s, sep, cur).Some? ==>
      var k := CutFrom(s, sep, cur).value.0;
      |cur| <= |k| && forall j :: 0 <= j < |k| - |cur| ==> !StartsWith(s[j..], sep)
    decreases |s|
  {
    if |s| < |sep| {
      NotContainsShort(s, sep);
    } else if s[..|sep|] != sep {
      CutFromFirst(s[1..], sep, cur + [s[0]]);
      if CutFrom(s, sep, cur).Some? {
        var k := CutFrom(s, sep, cur).value.0;
        forall j | 0 <= j < |k| - |cur| ensures !StartsWith(s[j..], sep) {
          if j > 0 { assert s[j..] == s[1..][j - 1..]; }
        }
      }
    }
  }

  lemma {:induction false} NotContainsShort(s: string, sep: string)
    requires |s| < |sep|
    ensures !Contains(s, sep)
    decreases |s|
  {
    if s != [] { NotContainsShort(s[1..], sep); }
  }

  /** SplitN(s, sep, 2) cuts at the FIRST occurrence: the key part holds no occurrence of `sep`
      starting inside it, and key + sep + value is the whole string. */
  lemma CutAtFirst(s: string, sep: string)
    requires sep != []
    ensures Cut(s, sep).None? <==> !Contains(s, sep)
    ensures Cut(s, sep).Some? ==>
      var (k, v) := Cut(s, sep).value;
      s == k + sep + v && forall j :: 0 <= j < |k| ==> !StartsWith(s[j..], sep)
  {
    CutFromFirst(s, sep, "");
  }

  /** The number of bytes a character takes in UTF-8 (Go's len of a string counts bytes). */
  function Utf8Width(c: char): (w: nat)
    ensures 1 <= w <= 4
  {
    if c as int < 0x80 then 1 else if c as int < 0x800 then 2 else if c as int < 0x10000 then 3 else 4
  }

  function Utf8Length(s: string): (n: nat)
    ensures |s| <= n <= 4 * |s|
  {
    if s == [] then 0 else Utf8Width(s[0]) + Utf8Length(s[1..])
  }

  /** The UTF-8 encoding of a character, as bytes 0..255: an ASCII character is its own byte,
      and every byte of a longer encoding is 0x80 or above. */
  function Utf8Encode(c: char): (bs: seq<int>)
    ensures |bs| == Utf8Width(c)
    ensures forall i :: 0 <= i < |bs| ==> 0 <= bs[i] < 256
    ensures c as int < 0x80 ==> bs == [c as int]
    ensures c as int >= 0x80 ==> forall i :: 0 <= i < |bs| ==> 0x80 <= bs[i]
  {
    var n := c as int;
    if n < 0x80 then [n]
    else if n < 0x800 then [0xC0 + n / 0x40, 0x80 + n % 0x40]
    else if n < 0x10000 then [0xE0 + n / 0x1000, 0x80 + n / 0x40 % 0x40, 0x80 + n % 0x40]
    else [0xF0 + n / 0x40000, 0x80 + n / 0x1000 % 0x40, 0x80 + n / 0x40 % 0x40, 0x80 + n % 0x40]
  }

  /** The bytes of a string, which Go's s[i] indexes. */
  function Utf8Bytes(s: string): (bs: seq<int>)
    ensures |bs| == Utf8Length(s)
    decreases |s|
  {
    if s == [] then [] else Utf8Encode(s[0]) + Utf8Bytes(s[1..])
  }

  predicate IsAscii(s: string) {
    forall i :: 0 <= i < |s| ==> s[i] as int < 0x80
  }

  /** The bytes of an ASCII string are its characters. */
  lemma {:induction false} AsciiBytes(s: string)
    requires IsAscii(s)
    ensures |Utf8Bytes(s)| == |s| && forall i :: 0 <= i < |s| ==> Utf8Bytes(s)[i] == s[i] as int
    decreases |s|
  {
    if s != [] {
      assert IsAscii(s[1..]) by {
        forall i | 0 <= i < |s[1..]| ensures s[1..][i] as int < 0x80 {
          assert s[1..][i] == s[i + 1];
        }
      }
      AsciiBytes(s[1..]);
    }
  }

  /** Replacing, in turn, each pattern of `pairs` by its replacement (strings.Replace(…, -1) in a loop). */
  function ReplaceChain(s: string, pairs: seq<(string, string)>): string
    decreases |pairs|
  {
    if pairs == [] then s else ReplaceChain(ReplaceAll(s, pairs[0].0, pairs[0].1), pairs[1..])
  }

  lemma ReplaceChainSnoc(s: string, pairs: seq<(string, string)>, p: (string, string))
    ensures ReplaceChain(s, pairs + [p]) == ReplaceAll(ReplaceChain(s, pairs), p.0, p.1)
    decreases |pairs|
  {
    if pairs != [] {
      assert (pairs + [p])[1..] == pairs[1..] + [p];
      ReplaceChainSnoc(ReplaceAll(s, pairs[0].0, pairs[0].1), pairs[1..], p);
    }
  }

  /** The last replacement of a chain applies to what the others made. */
  lemma ReplaceChainLast(s: string, pairs: seq<(string, string)>)
    requires pairs != []
    ensures ReplaceChain(s, pairs) ==
      ReplaceAll(ReplaceChain(s, pairs[..|pairs| - 1]), pairs[|pairs| - 1].0, pairs[|pairs| - 1].1)
  {
    assert pairs == pairs[..|pairs| - 1] + [pairs[|pairs| - 1]];
    ReplaceChainSnoc(s, pairs[..|pairs| - 1], pairs[|pairs| - 1]);
  }

  /** A chain whose every pattern starts with a character the text lacks leaves the text alone. */
  lemma {:induction false} ReplaceChainUntouched(s: string, pairs: seq<(string, string)>)
    requires forall i :: 0 <= i < |pairs| ==> pairs[i].0 != [] && pairs[i].0[0] !in s
    ensures ReplaceChain(s, pairs) == s
    decreases |pairs|
  {
    if pairs != [] {
      ReplaceAllAfterPrefix(s, [], pairs[0].0, pairs[0].1);
      assert s + [] == s;
      ReplaceChainUntouched(s, pairs[1..]);
    }
  }

  /** A prefix without the pattern's first character is never part of a match. */
  lemma {:induction false} ReplaceAllAfterPrefix(x: string, y: string, pat: string, rep: string)
    requires pat != [] && pat[0] !in x
    ensures ReplaceAll(x + y, pat, rep) == x + ReplaceAll(y, pat, rep)
    decreases |x|
  {
    if x != [] {
      var s := x + y;
      assert s[0] == x[0];
      assert s[1..] == x[1..] + y;
      if |s| < |pat| {
        assert ReplaceAll(y, pat, rep) == y;
        assert ReplaceAll(s, pat, rep) == s;
      } else {
        assert s[..|pat|][0] != pat[0];
        assert ReplaceAll(s, pat, rep) == [s[0]] + ReplaceAll(s[1..], pat, rep);
        ReplaceAllAfterPrefix(x[1..], y, pat, rep);
        assert x == [x[0]] + x[1..];
        assert [x[0]] + (x[1..] + ReplaceAll(y, pat, rep)) == x + ReplaceAll(y, pat, rep);
      }
    } else {
      assert x + y == y;
    }
  }
}
