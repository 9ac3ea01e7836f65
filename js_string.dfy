/**
 * The JavaScript string primitives the URL builder relies on, over `seq<char>`:
 * `split` and `join` with a fixed separator, `trim`, `toLowerCase`, `includes`,
 * `replace` with a string pattern (first occurrence only) and the global
 * regular-expression replace that deletes quote characters.
 * Whitespace and case are ASCII only.
 */
module JsString {
  import opened Wrappers

  // ---------------------------------------------------------------------------
  // split / join
  // ---------------------------------------------------------------------------

  /** `parts.join(sep)`: the parts with `sep` between neighbours. */
  function Join(parts: seq<string>, sep: string): (s: string)
    decreases |parts|
  {
    if |parts| == 0 then ""
    else if |parts| == 1 then parts[0]
    else parts[0] + sep + Join(parts[1..], sep)
  }

  /**
   * `s.split(sep)` for a one-character separator: never empty (the empty string
   * splits into one empty part), no part holds the separator, and joining the
   * parts back with the separator gives `s` again.
   */
  function Split(s: string, sep: char): (parts: seq<string>)
    ensures |parts| >= 1
    ensures forall i :: 0 <= i < |parts| ==> sep !in parts[i]
    ensures Join(parts, [sep]) == s
    decreases |s|
  {
    if |s| == 0 then [""]
    else
      var rest := Split(s[1..], sep);
      if s[0] == sep then
        assert s == [sep] + s[1..];
        [""] + rest
      else
        assert |rest| > 1 ==> Join([[s[0]] + rest[0]] + rest[1..], [sep])
                              == [s[0]] + rest[0] + [sep] + Join(rest[1..], [sep]);
        assert s == [s[0]] + s[1..];
        [[s[0]] + rest[0]] + rest[1..]
  }

  /** A part without the separator splits into itself. */
  lemma {:induction false} SplitNoSeparator(s: string, sep: char)
    requires sep !in s
    ensures Split(s, sep) == [s]
    decreases |s|
  {
    if |s| > 0 {
      SplitNoSeparator(s[1..], sep);
    }
  }

  /** Splitting stops at the first separator: the text before it is the first part. */
  lemma {:induction false} SplitAtFirstSeparator(a: string, sep: char, b: string)
    requires sep !in a
    ensures Split(a + [sep] + b, sep) == [a] + Split(b, sep)
    decreases |a|
  {
    if |a| == 0 {
      assert a + [sep] + b == [sep] + b;
      assert (a + [sep] + b)[1..] == b;
    } else {
      assert (a + [sep] + b)[1..] == a[1..] + [sep] + b;
      SplitAtFirstSeparator(a[1..], sep, b);
      assert [a[0]] + a[1..] == a;
    }
  }

  /** `split` undoes `join` when no part holds the separator. */
  lemma {:induction false} SplitJoin(parts: seq<string>, sep: char)
    requires |parts| >= 1
    requires forall i :: 0 <= i < |parts| ==> sep !in parts[i]
    ensures Split(Join(parts, [sep]), sep) == parts
    decreases |parts|
  {
    if |parts| == 1 {
      SplitNoSeparator(parts[0], sep);
    } else {
      SplitJoin(parts[1..], sep);
      SplitAtFirstSeparator(parts[0], sep, Join(parts[1..], [sep]));
      assert [parts[0]] + parts[1..] == parts;
    }
  }

  // ---------------------------------------------------------------------------
  // trim / toLowerCase
  // ---------------------------------------------------------------------------

  /** The white-space characters `trim` removes (ASCII subset). */
  predicate IsSpace(c: char)
  {
    c == ' ' || c == '\t' || c == '\n' || c == '\r' || c == '\U{B}' || c == '\U{C}'
  }

  /** `trimStart`: the suffix of `s` that starts at its first non-space character. */
  function TrimStart(s: string): (r: string)
    ensures |r| <= |s| && r == s[|s| - |r|..]
    ensures forall i :: 0 <= i < |s| - |r| ==> IsSpace(s[i])
    ensures r == "" || !IsSpace(r[0])
    decreases |s|
  {
    if |s| > 0 && IsSpace(s[0]) then TrimStart(s[1..]) else s
  }

  /** `trimEnd`: the prefix of `s` that ends at its last non-space character. */
  function TrimEnd(s: string): (r: string)
    ensures |r| <= |s| && r == s[..|r|]
    ensures forall i :: |r| <= i < |s| ==> IsSpace(s[i])
    ensures r == "" || !IsSpace(r[|r| - 1])
    decreases |s|
  {
    if |s| > 0 && IsSpace(s[|s| - 1]) then TrimEnd(s[..|s| - 1]) else s
  }

  /** `r` is the slice `s[k..k + |r|]` and everything around it is white space. */
  ghost predicate SpaceAround(s: string, r: string, k: int)
  {
    0 <= k <= |s| - |r| && r == s[k..k + |r|]
    && (forall i :: 0 <= i < k ==> IsSpace(s[i]))
    && (forall i :: k + |r| <= i < |s| ==> IsSpace(s[i]))
  }

  /** `trim`: white space removed at both ends. */
  function Trim(s: string): string
  {
    TrimEnd(TrimStart(s))
  }

  /** A prefix of a suffix is a slice. */
  lemma PrefixOfSuffix(s: string, k: nat, n: nat)
    requires k + n <= |s|
    ensures s[k..][..n] == s[k..k + n]
  {
  }

  /**
   * What `trim` removes is white space, and what it keeps neither starts nor
   * ends with white space.
   */
  lemma TrimSpec(s: string)
    ensures exists k :: SpaceAround(s, Trim(s), k)
    ensures Trim(s) == "" || (!IsSpace(Trim(s)[0]) && !IsSpace(Trim(s)[|Trim(s)| - 1]))
  {
    var t := TrimStart(s);
    var r := TrimEnd(t);
    var k := |s| - |t|;
    assert t == s[k..] && r == t[..|r|];
    PrefixOfSuffix(s, k, |r|);
    forall i | k + |r| <= i < |s| ensures IsSpace(s[i]) {
      assert s[i] == t[i - k];
    }
    assert r == Trim(s);
    assert SpaceAround(s, r, k);
    assert r != "" ==> r[0] == t[0];
  }

  /** Text that does not start with white space can be glued after a trimmed start. */
  lemma {:induction false} TrimStartAppend(a: string, b: string)
    requires b != [] && !IsSpace(b[0])
    ensures TrimStart(a + b) == TrimStart(a) + b
    decreases |a|
  {
    if |a| == 0 {
      assert a + b == b;
    } else {
      assert (a + b)[0] == a[0];
      if IsSpace(a[0]) {
        assert (a + b)[1..] == a[1..] + b;
        TrimStartAppend(a[1..], b);
      }
    }
  }

  /** `s` does not end with white space. */
  predicate NoTrailingSpace(s: string)
  {
    s == "" || !IsSpace(s[|s| - 1])
  }

  /** Text without trailing white space only needs its start trimmed. */
  lemma TrimNoTrailingSpace(s: string)
    requires NoTrailingSpace(s)
    ensures Trim(s) == TrimStart(s)
  {
    var t := TrimStart(s);
    assert t == s[|s| - |t|..];
    assert t == "" || t[|t| - 1] == s[|s| - 1];
  }

  /** `trimStart` of a text joined at a colon, when the text before it has no trailing white space. */
  lemma TrimStartBeforeColon(first: string, rest: string)
    requires NoTrailingSpace(first)
    ensures Trim(first) + ":" + rest == TrimStart(first + ":" + rest)
  {
    var tail := ":" + rest;
    assert first + ":" + rest == first + tail;
    assert Trim(first) + ":" + rest == Trim(first) + tail;
    assert TrimStart(first + tail) == Trim(first) + tail by {
      TrimNoTrailingSpace(first);
      TrimStartAppend(first, tail);
    }
  }

  /** ASCII `toLowerCase` of one character. */
  function LowerChar(c: char): char
  {
    if 'A' <= c <= 'Z' then (c as int + 32) as char else c
  }

  /** ASCII `toLowerCase`. */
  function ToLower(s: string): string
  {
    seq(|s|, i requires 0 <= i < |s| => LowerChar(s[i]))
  }

  // ---------------------------------------------------------------------------
  // indexOf / includes / replace
  // ---------------------------------------------------------------------------

  /** `pat` occurs in `s` starting at index `i`. */
  ghost predicate OccursAt(s: string, pat: string, i: int)
  {
    0 <= i && i + |pat| <= |s| && s[i..i + |pat|] == pat
  }

  /** Whether `pat` is a prefix of `s`, computed character by character. */
  function StartsWith(s: string, pat: string): (b: bool)
    ensures b <==> OccursAt(s, pat, 0)
    decreases |pat|
  {
    if |pat| == 0 then true
    else if |s| == 0 || s[0] != pat[0] then false
    else
      var b := StartsWith(s[1..], pat[1..]);
      assert b <==> OccursAt(s, pat, 0) by {
        if OccursAt(s, pat, 0) {
          assert s[1..][0..|pat| - 1] == s[1..|pat|] == pat[1..];
        }
        if b {
          assert s[0..|pat|] == [s[0]] + s[1..][0..|pat| - 1];
          assert pat == [pat[0]] + pat[1..];
        }
      }
      b
  }

  /** The first index at or after `from` where `pat` occurs. */
  function IndexFrom(s: string, pat: string, from: nat): (r: Option<nat>)
    requires from <= |s|
    ensures r.Some? ==> from <= r.value && OccursAt(s, pat, r.value)
    ensures forall j :: from <= j && (r.None? || j < r.value) ==> !OccursAt(s, pat, j)
    decreases |s| - from
  {
    if StartsWith(s[from..], pat) then
      assert s[from..][0..|pat|] == s[from..from + |pat|];
      Some(from)
    else if from == |s| then None
    else IndexFrom(s, pat, from + 1)
  }

  /** `s.indexOf(pat)`: the first occurrence, or None when there is none. */
  function IndexOf(s: string, pat: string): (r: Option<nat>)
    ensures r.Some? ==> OccursAt(s, pat, r.value)
                        && forall j :: 0 <= j < r.value ==> !OccursAt(s, pat, j)
    ensures r.None? <==> forall j :: !OccursAt(s, pat, j)
  {
    IndexFrom(s, pat, 0)
  }

  /** `s.includes(pat)`. */
  predicate Contains(s: string, pat: string)
  {
    IndexOf(s, pat).Some?
  }

  /** `includes` holds exactly when the pattern occurs somewhere. */
  lemma ContainsSpec(s: string, pat: string)
    ensures Contains(s, pat) <==> exists j :: OccursAt(s, pat, j)
  {
  }

  /**
   * `s.replace(pat, rep)` with a string pattern: the first occurrence of `pat`
   * is replaced by `rep`; without an occurrence `s` comes back unchanged.
   */
  function ReplaceFirst(s: string, pat: string, rep: string): string
  {
    match IndexOf(s, pat)
    case None => s
    case Some(i) => s[..i] + rep + s[i + |pat|..]
  }

  /**
   * Without an occurrence of `pat` the text is unchanged; otherwise the
   * occurrence with no other before it, and only that one, is replaced.
   */
  lemma ReplaceFirstSpec(s: string, pat: string, rep: string)
    ensures (forall j :: !OccursAt(s, pat, j)) ==> ReplaceFirst(s, pat, rep) == s
    ensures forall i :: OccursAt(s, pat, i) && (forall j :: 0 <= j < i ==> !OccursAt(s, pat, j))
                        ==> ReplaceFirst(s, pat, rep) == s[..i] + rep + s[i + |pat|..]
  {
  }

  /** A pattern at the very start is the first occurrence. */
  lemma ReplaceFirstPrefix(pat: string, b: string, c: string, rep: string)
    ensures ReplaceFirst(pat + b + c, pat, rep) == rep + b + c
  {
    var s := pat + b + c;
    assert OccursAt(s, pat, 0) by {
      assert s[0..|pat|] == pat;
    }
    assert s[..0] == [] && s[|pat|..] == b + c;
    assert rep + b + c == rep + (b + c);
  }

  /** Replacing a pattern that occurs first right after `a` touches only what follows `a`. */
  lemma ReplaceFirstAfter(a: string, pat: string, b: string, rep: string)
    requires forall j :: 0 <= j < |a| ==> !OccursAt(a + pat + b, pat, j)
    ensures ReplaceFirst(a + pat + b, pat, rep) == a + rep + b
  {
    var s := a + pat + b;
    assert OccursAt(s, pat, |a|) by {
      assert s[|a|..|a| + |pat|] == pat;
    }
    assert s[..|a|] == a && s[|a| + |pat|..] == b;
  }

  // ---------------------------------------------------------------------------
  // replace(/['"]+/g, '')
  // ---------------------------------------------------------------------------

  /** The characters the quote-removing pattern matches: single and double quotes. */
  predicate IsQuote(c: char)
  {
    c == '\'' || c == '"'
  }

  /**
   * Deletes every single and double quote, wherever it occurs: the result
   * holds no quote and is no longer than `s`.
   */
  function StripQuotes(s: string): (r: string)
    ensures forall i :: 0 <= i < |r| ==> !IsQuote(r[i])
    ensures |r| <= |s|
    decreases |s|
  {
    if |s| == 0 then ""
    else if IsQuote(s[0]) then StripQuotes(s[1..])
    else [s[0]] + StripQuotes(s[1..])
  }

  /** A single quote character is deleted, not replaced. */
  lemma StripQuoteChar(c: char)
    requires IsQuote(c)
    ensures StripQuotes([c]) == ""
  {
  }

  /** Any other single character is kept. */
  lemma KeepOtherChar(c: char)
    requires !IsQuote(c)
    ensures StripQuotes([c]) == [c]
  {
  }

  /** Stripping quotes distributes over concatenation. */
  lemma {:induction false} StripQuotesAppend(a: string, b: string)
    ensures StripQuotes(a + b) == StripQuotes(a) + StripQuotes(b)
    decreases |a|
  {
    if |a| == 0 {
      assert a + b == b;
    } else {
      assert (a + b)[0] == a[0] && (a + b)[1..] == a[1..] + b;
      StripQuotesAppend(a[1..], b);
    }
  }

  /** Text without quotes is left as it is, and only such text is. */
  lemma {:induction false} StripQuotesIdentity(s: string)
    ensures StripQuotes(s) == s <==> forall i :: 0 <= i < |s| ==> !IsQuote(s[i])
    decreases |s|
  {
    if |s| > 0 {
      StripQuotesIdentity(s[1..]);
    }
  }

  /** Stripping twice is stripping once. */
  lemma StripQuotesIdempotent(s: string)
    ensures StripQuotes(StripQuotes(s)) == StripQuotes(s)
  {
    StripQuotesIdentity(StripQuotes(s));
  }
}
