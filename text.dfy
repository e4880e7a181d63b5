/**
 * The C string helpers the configuration parser and the URL resolver rely on:
 * `strtrim` and `strreplace` from util.c (by what their names say), and the
 * `strchr`/`strsep`/`strncmp` idioms update.c uses on each line.
 */
module Text {
  import opened Base

  /** `isspace` in the C locale: space, \t, \n, \v, \f and \r. */
  predicate IsSpace(c: char) {
    c == ' ' || ('\t' <= c <= '\r')
  }

  /** A string with no whitespace at either end. */
  predicate IsTrimmed(s: string) {
    s == [] || (!IsSpace(s[0]) && !IsSpace(s[|s| - 1]))
  }

  /** Number of whitespace characters at the start of `s`. */
  function LeadingSpaces(s: string): (k: nat)
    ensures k <= |s|
  {
    if s != [] && IsSpace(s[0]) then 1 + LeadingSpaces(s[1..]) else 0
  }

  /** LeadingSpaces counts exactly the whitespace run that opens `s`. */
  lemma {:induction false} LeadingSpacesRun(s: string)
    ensures forall i :: 0 <= i < LeadingSpaces(s) ==> IsSpace(s[i])
    ensures LeadingSpaces(s) < |s| ==> !IsSpace(s[LeadingSpaces(s)])
  {
    if s != [] && IsSpace(s[0]) {
      LeadingSpacesRun(s[1..]);
    }
  }

  /** `s` without its trailing whitespace. */
  function TrimRight(s: string): (r: string)
    ensures r <= s
  {
    if s != [] && IsSpace(s[|s| - 1]) then TrimRight(s[..|s| - 1]) else s
  }

  /** TrimRight removes exactly the whitespace run that closes `s`. */
  lemma {:induction false} TrimRightRun(s: string)
    ensures forall i :: |TrimRight(s)| <= i < |s| ==> IsSpace(s[i])
    ensures TrimRight(s) == [] || !IsSpace(TrimRight(s)[|TrimRight(s)| - 1])
  {
    if s != [] && IsSpace(s[|s| - 1]) {
      TrimRightRun(s[..|s| - 1]);
    }
  }

  /**
   * strtrim: drops leading and trailing whitespace. TrimSlice states which
   * slice of `s` is kept.
   */
  function Trim(s: string): (r: string)
    ensures IsTrimmed(r)
    ensures |r| <= |s|
  {
    var t := s[LeadingSpaces(s)..];
    LeadingSpacesRun(s);
    TrimRightRun(t);
    var r := TrimRight(t);
    assert r != [] ==> r[0] == t[0];
    r
  }

  /**
   * The trimmed string is the slice of `s` that starts after its leading
   * whitespace, and only whitespace follows it.
   */
  lemma TrimSlice(s: string)
    ensures LeadingSpaces(s) + |Trim(s)| <= |s|
    ensures Trim(s) == s[LeadingSpaces(s)..LeadingSpaces(s) + |Trim(s)|]
    ensures forall i :: 0 <= i < LeadingSpaces(s) ==> IsSpace(s[i])
    ensures forall i :: LeadingSpaces(s) + |Trim(s)| <= i < |s| ==> IsSpace(s[i])
  {
    var k := LeadingSpaces(s);
    LeadingSpacesRun(s);
    TrimRightRun(s[k..]);
  }

  /** Trimming a string twice changes nothing more than trimming it once. */
  lemma TrimIdempotent(s: string)
    ensures Trim(Trim(s)) == Trim(s)
  {
    TrimmedIsFixed(Trim(s));
  }

  /** A trimmed string is its own trim. */
  lemma TrimmedIsFixed(s: string)
    requires IsTrimmed(s)
    ensures Trim(s) == s
  {
    assert LeadingSpaces(s) == 0;
    assert s[0..] == s;
  }

  /** Trimming keeps the first character when that is not whitespace. */
  lemma TrimKeepsFirst(s: string)
    requires s != [] && !IsSpace(s[0])
    ensures Trim(s) != [] && Trim(s)[0] == s[0]
  {
    assert LeadingSpaces(s) == 0;
    assert s[0..] == s;
    TrimRightRun(s);
  }

  /**
   * Cuts `s` at its first `#` (the comment marker), as update.c does by
   * writing a NUL over the result of `strchr(line, '#')`.
   */
  function StripComment(s: string): (r: string)
    ensures r <= s
    ensures '#' !in r
    ensures |r| < |s| ==> s[|r|] == '#'
  {
    if s == [] || s[0] == '#' then [] else [s[0]] + StripComment(s[1..])
  }

  /** The line as update.c examines it: comment cut off, then trimmed. */
  function Normalize(line: string): (t: string)
    ensures IsTrimmed(t)
  {
    Trim(StripComment(line))
  }

  /** strchr: the index of the first occurrence of `c`, if any. */
  function IndexOf(s: string, c: char): (r: Option<nat>)
    ensures r.None? <==> c !in s
    ensures r.Some? ==> r.value < |s| && s[r.value] == c && c !in s[..r.value]
  {
    if s == [] then None
    else if s[0] == c then Some(0)
    else match IndexOf(s[1..], c)
      case None => None
      case Some(i) => Some(i + 1)
  }

  /**
   * A line split at its first `=`: the trimmed key before it and the trimmed
   * value after it (`strsep(&line, "=")` followed by `strtrim` on both halves);
   * None when the line has no `=`.
   */
  function KeyValue(t: string): (kv: Option<(string, string)>)
    ensures kv.None? <==> '=' !in t
    ensures kv.Some? ==> IsTrimmed(kv.value.0) && IsTrimmed(kv.value.1)
    ensures kv.Some? ==> |kv.value.0| + |kv.value.1| < |t|
  {
    match IndexOf(t, '=')
    case None => None
    case Some(i) => Some((Trim(t[..i]), Trim(t[i + 1..])))
  }

  /** line_get_val(line, "="): the trimmed text after the first `=`, if any. */
  function LineGetVal(t: string): (v: Option<string>)
    ensures v.None? <==> '=' !in t
    ensures v.Some? ==> IsTrimmed(v.value) && |v.value| < |t|
  {
    match KeyValue(t)
    case None => None
    case Some(kv) => Some(kv.1)
  }

  /**
   * Splitting happens at the FIRST `=`: a key without `=` followed by `=` and
   * any value (which may itself hold `=`) splits back into the two trimmed parts.
   */
  lemma {:induction false} KeyValueSplitsAtFirst(k: string, v: string)
    requires '=' !in k
    ensures KeyValue(k + "=" + v) == Some((Trim(k), Trim(v)))
  {
    var t := k + "=" + v;
    assert t[|k|] == '=';
    var r := IndexOf(t, '=').value;
    assert r == |k| by {
      assert forall j :: 0 <= j < r ==> t[j] == t[..r][j] != '=';
      assert forall j :: 0 <= j < |k| ==> t[j] == k[j] != '=';
    }
    assert t[..|k|] == k && t[|k| + 1..] == v;
    assert KeyValue(t) == Some((Trim(t[..r]), Trim(t[r + 1..])));
  }

  /** strstr(s, pat) != NULL. */
  predicate Contains(s: string, pat: string)
    decreases |s|
  {
    pat <= s || (s != [] && Contains(s[1..], pat))
  }

  /**
   * strreplace: every occurrence of `pat`, found left to right without
   * overlap, replaced by `rep`.
   */
  function ReplaceAll(s: string, pat: string, rep: string): string
    requires pat != []
    decreases |s|
  {
    if s == [] then []
    else if pat <= s then rep + ReplaceAll(s[|pat|..], pat, rep)
    else [s[0]] + ReplaceAll(s[1..], pat, rep)
  }

  /** How many occurrences ReplaceAll replaces. */
  function Count(s: string, pat: string): nat
    requires pat != []
    decreases |s|
  {
    if s == [] then 0
    else if pat <= s then 1 + Count(s[|pat|..], pat)
    else Count(s[1..], pat)
  }

  /** A string without the pattern passes through ReplaceAll unchanged. */
  lemma {:induction false} ReplaceAllAbsent(s: string, pat: string, rep: string)
    requires pat != [] && !Contains(s, pat)
    ensures ReplaceAll(s, pat, rep) == s
  {
    if s != [] {
      ReplaceAllAbsent(s[1..], pat, rep);
    }
  }

  /** Replacing a pattern by itself is the identity. */
  lemma {:induction false} ReplaceAllSelf(s: string, pat: string)
    requires pat != []
    ensures ReplaceAll(s, pat, pat) == s
    decreases |s|
  {
    if s == [] {
    } else if pat <= s {
      ReplaceAllSelf(s[|pat|..], pat);
      assert s == pat + s[|pat|..];
    } else {
      ReplaceAllSelf(s[1..], pat);
    }
  }

  /** The pattern occurs exactly when ReplaceAll has something to replace. */
  lemma {:induction false} CountZeroIffAbsent(s: string, pat: string)
    requires pat != []
    ensures Count(s, pat) == 0 <==> !Contains(s, pat)
    decreases |s|
  {
    if s != [] && !(pat <= s) {
      CountZeroIffAbsent(s[1..], pat);
    }
  }

  /** Each replacement changes the length by |rep| - |pat|. */
  lemma {:induction false} ReplaceAllLength(s: string, pat: string, rep: string)
    requires pat != []
    ensures |ReplaceAll(s, pat, rep)| == |s| + Count(s, pat) * (|rep| - |pat|)
    decreases |s|
  {
    if s == [] {
    } else if pat <= s {
      var rest := s[|pat|..];
      ReplaceAllLength(rest, pat, rep);
      calc {
        |ReplaceAll(s, pat, rep)|;
        |rep| + |rest| + Count(rest, pat) * (|rep| - |pat|);
        |s| + (1 + Count(rest, pat)) * (|rep| - |pat|);
      }
    } else {
      ReplaceAllLength(s[1..], pat, rep);
    }
  }

  /**
   * A prefix that does not contain the pattern's first character cannot hold
   * or start an occurrence, so ReplaceAll copies it unchanged.
   */
  lemma {:induction false} ReplaceAllSkipsPrefix(a: string, b: string, pat: string, rep: string)
    requires pat != [] && pat[0] !in a
    ensures ReplaceAll(a + b, pat, rep) == a + ReplaceAll(b, pat, rep)
  {
    if a == [] {
      assert a + b == b;
    } else {
      assert (a + b)[0] == a[0];
      assert !(pat <= a + b);
      assert (a + b)[1..] == a[1..] + b;
      ReplaceAllSkipsPrefix(a[1..], b, pat, rep);
    }
  }

  /** A position where the pattern does not start is copied as is. */
  lemma ReplaceAllMismatch(c: char, rest: string, pat: string, rep: string)
    requires pat != [] && !(pat <= [c] + rest)
    ensures ReplaceAll([c] + rest, pat, rep) == [c] + ReplaceAll(rest, pat, rep)
  {
    assert ([c] + rest)[1..] == rest;
  }

  /** The pattern alone is replaced by the replacement. */
  lemma ReplaceAllWhole(pat: string, rep: string)
    requires pat != []
    ensures ReplaceAll(pat, pat, rep) == rep
  {
    assert pat[|pat|..] == [];
    assert rep + [] == rep;
  }
}
