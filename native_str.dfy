/**
 * The string natives `split`, `ltrimstr` and `rtrimstr`, on strings as
 * sequences of characters.
 */
module NativeStr {

  /** `split` with the empty separator: one single-character string per character, as `chars` gives. */
  function Chars(s: string): seq<string>
  {
    if s == [] then [] else [[s[0]]] + Chars(s[1..])
  }

  /**
   * `str::split` with a non-empty separator, reading `s` from left to right:
   * `cur` is the piece read so far, an occurrence of `sep` ends it, and the
   * search goes on after that occurrence, so occurrences do not overlap.
   */
  function SplitFrom(s: string, sep: string, cur: string): (r: seq<string>)
    requires sep != []
    ensures |r| > 0
    decreases |s|
  {
    if sep <= s then [cur] + SplitFrom(s[|sep|..], sep, [])
    else if s == [] then [cur]
    else SplitFrom(s[1..], sep, cur + [s[0]])
  }

  /** The native `split(s; sep)`. */
  function Split(s: string, sep: string): seq<string>
  {
    if sep == [] then Chars(s) else SplitFrom(s, sep, [])
  }

  /** The pieces with `sep` between each two neighbours. */
  function Join(pieces: seq<string>, sep: string): string
  {
    if pieces == [] then []
    else if |pieces| == 1 then pieces[0]
    else pieces[0] + sep + Join(pieces[1..], sep)
  }

  /** The number of occurrences of `sep` in `s` found left to right without overlap. */
  function Count(s: string, sep: string): nat
    requires sep != []
    decreases |s|
  {
    if |s| < |sep| then 0
    else if s[..|sep|] == sep then 1 + Count(s[|sep|..], sep)
    else Count(s[1..], sep)
  }

  lemma {:induction false} CharsPieces(s: string)
    ensures |Chars(s)| == |s|
    ensures forall i | 0 <= i < |s| :: Chars(s)[i] == [s[i]]
    ensures Join(Chars(s), []) == s
  {
    if s != [] {
      CharsPieces(s[1..]);
      if |s| > 1 {
        assert Join(Chars(s), []) == [s[0]] + Join(Chars(s[1..]), []);
      }
    }
  }

  lemma {:induction false} SplitFromJoin(s: string, sep: string, cur: string)
    requires sep != []
    ensures Join(SplitFrom(s, sep, cur), sep) == cur + s
    decreases |s|
  {
    if sep <= s {
      var rest := SplitFrom(s[|sep|..], sep, []);
      SplitFromJoin(s[|sep|..], sep, []);
      assert ([cur] + rest)[1..] == rest;
      assert s == sep + s[|sep|..];
    } else if s != [] {
      SplitFromJoin(s[1..], sep, cur + [s[0]]);
      assert cur + [s[0]] + s[1..] == cur + s;
    }
  }

  lemma {:induction false} SplitFromCount(s: string, sep: string, cur: string)
    requires sep != []
    ensures |SplitFrom(s, sep, cur)| == Count(s, sep) + 1
    decreases |s|
  {
    if sep <= s {
      SplitFromCount(s[|sep|..], sep, []);
    } else if s != [] {
      SplitFromCount(s[1..], sep, cur + [s[0]]);
    }
  }

  /**
   * Joining the pieces with the separator gives the string back; with a
   * non-empty separator there is one piece more than there are occurrences,
   * and with the empty separator one piece per character.
   */
  lemma SplitJoin(s: string, sep: string)
    ensures Join(Split(s, sep), sep) == s
    ensures sep != [] ==> |Split(s, sep)| == Count(s, sep) + 1
    ensures sep == [] ==> |Split(s, sep)| == |s| && forall i | 0 <= i < |s| :: Split(s, sep)[i] == [s[i]]
  {
    if sep == [] {
      CharsPieces(s);
    } else {
      SplitFromJoin(s, sep, []);
      SplitFromCount(s, sep, []);
    }
  }

  /** Adjacent separators give an empty piece. */
  lemma SplitCommas()
    ensures Split("a,b,,c", ",") == ["a", "b", "", "c"]
  {
    assert SplitFrom("c", ",", "") == ["c"] by {
      assert "c"[0] != ","[0] && "c"[1..] == "" && [] + ['c'] == "c";
      assert SplitFrom("", ",", "c") == ["c"];
    }
    assert SplitFrom(",c", ",", "") == [""] + ["c"] by { assert ",c"[1..] == "c"; }
    assert SplitFrom(",,c", ",", "b") == ["b"] + [""] + ["c"] by { assert ",,c"[1..] == ",c"; }
    assert SplitFrom("b,,c", ",", "") == ["b", "", "c"] by {
      assert !("," <= "b,,c") && "b,,c"[1..] == ",,c" && [] + ['b'] == "b";
    }
    assert SplitFrom(",b,,c", ",", "a") == ["a", "b", "", "c"] by { assert ",b,,c"[1..] == "b,,c"; }
    assert !("," <= "a,b,,c") && "a,b,,c"[1..] == ",b,,c" && [] + ['a'] == "a";
  }

  /** The empty string is one empty piece; the empty separator gives the characters. */
  lemma SplitEmpty()
    ensures Split("", ",") == [""]
    ensures Split("ab", "") == ["a", "b"]
  {
    assert "ab"[1..] == "b" && "b"[1..] == "";
  }

  /** Occurrences are found left to right and do not overlap. */
  lemma SplitNoOverlap()
    ensures Split("aaa", "aa") == ["", "a"]
  {
    assert SplitFrom("a", "aa", "") == ["a"] by {
      assert !("aa" <= "a") && "a"[1..] == "" && [] + ['a'] == "a";
      assert SplitFrom("", "aa", "a") == ["a"];
    }
    assert "aaa"[2..] == "a";
  }

  /** `ltrimstr`: `s` without the prefix `pre`, or `s` itself when it does not start with `pre`. */
  function LTrimStr(s: string, pre: string): (r: string)
    ensures pre <= s ==> pre + r == s
    ensures !(pre <= s) ==> r == s
  {
    if pre <= s then s[|pre|..] else s
  }

  predicate IsSuffix(suf: string, s: string)
  {
    |suf| <= |s| && s[|s| - |suf|..] == suf
  }

  /** `rtrimstr`: `s` without the suffix `suf`, or `s` itself when it does not end with `suf`. */
  function RTrimStr(s: string, suf: string): (r: string)
    ensures IsSuffix(suf, s) ==> r + suf == s
    ensures !IsSuffix(suf, s) ==> r == s
  {
    if IsSuffix(suf, s) then s[..|s| - |suf|] else s
  }

  /** Trimming removes exactly the prefix or suffix that was added. */
  lemma TrimRoundTrip(pre: string, t: string, suf: string)
    ensures LTrimStr(pre + t, pre) == t
    ensures RTrimStr(t + suf, suf) == t
  {
    assert pre <= pre + t;
    assert (t + suf)[|t + suf| - |suf|..] == suf;
  }
}
