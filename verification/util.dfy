/**
 * String helpers of the collector: splitting on a set of delimiter
 * characters, replacing every occurrence of a substring, and turning
 * forward slashes into Windows path separators.
 */
module Util {
  import opened Wrappers

  /** No character of `piece` is one of `delims`. */
  predicate Clean(piece: string, delims: string) {
    forall i :: 0 <= i < |piece| ==> piece[i] !in delims
  }

  /**
   * The first position at or after `start` holding one of `delims`, as
   * `std::string::find_first_of(delims, start)`; None stands for npos.
   */
  function FindFirstOf(s: string, delims: string, start: nat): (r: Option<nat>)
    ensures r.Some? ==> start <= r.value < |s| && s[r.value] in delims
    ensures r.Some? ==> forall i :: start <= i < r.value ==> s[i] !in delims
    ensures r.None? ==> forall i :: start <= i < |s| ==> s[i] !in delims
    decreases |s| - start
  {
    if start >= |s| then None
    else if s[start] in delims then Some(start)
    else FindFirstOf(s, delims, start + 1)
  }

  /** A delimiter at `e` with none before it is what FindFirstOf finds. */
  lemma {:induction false} FindFirstOfAt(s: string, delims: string, e: nat)
    requires e < |s| && s[e] in delims
    requires forall i :: 0 <= i < e ==> s[i] !in delims
    ensures FindFirstOf(s, delims, 0) == Some(e)
  {
    FindFirstOfFrom(s, delims, 0, e);
  }

  lemma {:induction false} FindFirstOfFrom(s: string, delims: string, start: nat, e: nat)
    requires start <= e < |s| && s[e] in delims
    requires forall i :: start <= i < e ==> s[i] !in delims
    ensures FindFirstOf(s, delims, start) == Some(e)
    decreases e - start
  {
    if start < e {
      FindFirstOfFrom(s, delims, start + 1, e);
    }
  }

  /** The delimiter characters of `s`, in order. */
  function Delimiters(s: string, delims: string): (ds: string)
    ensures |ds| <= |s|
  {
    if |s| == 0 then []
    else if s[0] in delims then [s[0]] + Delimiters(s[1..], delims)
    else Delimiters(s[1..], delims)
  }

  /** `pieces[0] + seps[0] + pieces[1] + ... + pieces[n]`. */
  function Interleave(pieces: seq<string>, seps: string): string
    requires |pieces| == |seps| + 1
  {
    if |seps| == 0 then pieces[0]
    else pieces[0] + [seps[0]] + Interleave(pieces[1..], seps[1..])
  }

  /**
   * Reference definition of splitting: every delimiter character ends the
   * current piece, and the text after the last one is the final piece.
   */
  function Split(s: string, delims: string): (pieces: seq<string>)
    ensures |pieces| >= 1
    decreases |s|
  {
    if |s| == 0 then [""]
    else
      var rest := Split(s[1..], delims);
      if s[0] in delims then [""] + rest
      else [[s[0]] + rest[0]] + rest[1..]
  }

  /** Splitting yields one more piece than there are delimiter characters. */
  lemma {:induction false} SplitCount(s: string, delims: string)
    ensures |Split(s, delims)| == |Delimiters(s, delims)| + 1
    decreases |s|
  {
    if |s| > 0 {
      SplitCount(s[1..], delims);
    }
  }

  /** No piece contains a delimiter character. */
  lemma {:induction false} SplitClean(s: string, delims: string)
    ensures forall k :: 0 <= k < |Split(s, delims)| ==> Clean(Split(s, delims)[k], delims)
    decreases |s|
  {
    if |s| > 0 {
      SplitClean(s[1..], delims);
      var rest := Split(s[1..], delims);
      if s[0] !in delims {
        var head := [s[0]] + rest[0];
        assert Clean(rest[0], delims);
        assert Clean(head, delims) by {
          forall i | 0 <= i < |head| ensures head[i] !in delims {
            if i > 0 {
              assert head[i] == rest[0][i - 1];
            }
          }
        }
      }
    }
  }

  /** Putting the delimiters back between the pieces gives the input again. */
  lemma {:induction false} SplitRejoin(s: string, delims: string)
    ensures |Split(s, delims)| == |Delimiters(s, delims)| + 1
    ensures Interleave(Split(s, delims), Delimiters(s, delims)) == s
    decreases |s|
  {
    SplitCount(s, delims);
    if |s| > 0 {
      SplitRejoin(s[1..], delims);
      var rest := Split(s[1..], delims);
      var ds := Delimiters(s[1..], delims);
      if s[0] in delims {
        assert Split(s, delims)[1..] == rest;
        assert Delimiters(s, delims)[1..] == ds;
      } else {
        InterleaveHead(rest, ds, s[0]);
      }
    }
  }

  lemma InterleaveHead(pieces: seq<string>, seps: string, c: char)
    requires |pieces| == |seps| + 1
    ensures [c] + Interleave(pieces, seps) == Interleave([[c] + pieces[0]] + pieces[1..], seps)
  {
    var moved := [[c] + pieces[0]] + pieces[1..];
    if |seps| > 0 {
      assert moved[1..] == pieces[1..];
    }
  }

  /** A clean text is a single piece. */
  lemma {:induction false} SplitWhole(t: string, delims: string)
    requires Clean(t, delims)
    ensures Split(t, delims) == [t]
    decreases |t|
  {
    if |t| > 0 {
      SplitWhole(t[1..], delims);
      assert [t[0]] + t[1..] == t;
    }
  }

  /** A clean prefix ended by a delimiter is the first piece. */
  lemma {:induction false} SplitFirst(t: string, delims: string, k: nat)
    requires k < |t| && t[k] in delims
    requires forall i :: 0 <= i < k ==> t[i] !in delims
    ensures Split(t, delims) == [t[..k]] + Split(t[k + 1..], delims)
    decreases k
  {
    if k == 0 {
      assert t[1..] == t[k + 1..];
    } else {
      SplitFirst(t[1..], delims, k - 1);
      assert t[1..][k..] == t[k + 1..];
      assert [t[0]] + t[1..][..k - 1] == t[..k];
    }
  }

  /**
   * `splitString`: repeatedly cut at the next delimiter character and keep
   * the rest after the last one.
   */
  method SplitString(str: string, delims: string) returns (split: seq<string>)
    ensures split == Split(str, delims)
    ensures |split| == |Delimiters(str, delims)| + 1
    ensures forall k :: 0 <= k < |split| ==> Clean(split[k], delims)
    ensures Interleave(split, Delimiters(str, delims)) == str
  {
    split := [];
    var start := 0;
    var end := FindFirstOf(str, delims, 0);
    while end.Some?
      invariant start <= |str|
      invariant end == FindFirstOf(str, delims, start)
      invariant split + Split(str[start..], delims) == Split(str, delims)
      decreases |str| - start
    {
      var e := end.value;
      SplitCut(str, delims, start, e, split);
      split := split + [str[start..e]];
      start := e + 1;
      end := FindFirstOf(str, delims, start);
    }
    SplitLast(str, delims, start, split);
    split := split + [str[start..]];
    SplitRejoin(str, delims);
    SplitClean(str, delims);
  }

  /** One cut of the loop: the piece up to the next delimiter joins the pieces already taken. */
  lemma SplitCut(str: string, delims: string, start: nat, e: nat, split: seq<string>)
    requires start <= |str| && FindFirstOf(str, delims, start) == Some(e)
    requires split + Split(str[start..], delims) == Split(str, delims)
    ensures (split + [str[start..e]]) + Split(str[e + 1..], delims) == Split(str, delims)
  {
    var t, k := str[start..], e - start;
    assert Split(t, delims) == [str[start..e]] + Split(str[e + 1..], delims) by {
      forall i | 0 <= i < k ensures t[i] !in delims {
        assert t[i] == str[start + i];
      }
      assert t[k] == str[e];
      SplitFirst(t, delims, k);
      assert t[..k] == str[start..e];
      assert t[k + 1..] == str[e + 1..];
    }
    Assoc(split, [str[start..e]], Split(str[e + 1..], delims));
  }

  lemma Assoc<T>(a: seq<T>, b: seq<T>, c: seq<T>)
    ensures a + (b + c) == (a + b) + c
  {
  }

  /** After the last delimiter, the rest of the text is the final piece. */
  lemma SplitLast(str: string, delims: string, start: nat, split: seq<string>)
    requires start <= |str| && FindFirstOf(str, delims, start).None?
    requires split + Split(str[start..], delims) == Split(str, delims)
    ensures split + [str[start..]] == Split(str, delims)
  {
    SplitWhole(str[start..], delims);
  }

  /** `pat` occurs in `s` starting at index `i`. */
  predicate OccursAt(s: string, pat: string, i: nat) {
    i + |pat| <= |s| && s[i..i + |pat|] == pat
  }

  /** The leftmost occurrence of `pat` at or after `pos`, as `std::string::find`. */
  function Find(s: string, pat: string, pos: nat): (r: Option<nat>)
    ensures r.Some? ==> pos <= r.value && OccursAt(s, pat, r.value)
    ensures r.Some? ==> forall i :: pos <= i < r.value ==> !OccursAt(s, pat, i)
    ensures r.None? ==> forall i :: pos <= i ==> !OccursAt(s, pat, i)
    decreases |s| - pos
  {
    if pos + |pat| > |s| then None
    else if s[pos..pos + |pat|] == pat then Some(pos)
    else Find(s, pat, pos + 1)
  }

  /**
   * Reference definition of replacement: scanning left to right, each
   * occurrence of `search` is replaced and scanning resumes after it, so
   * occurrences never overlap and inserted text is never scanned.
   */
  function ReplaceAll(s: string, search: string, replace: string): string
    requires |search| > 0
    decreases |s|
  {
    if |s| < |search| then s
    else if s[..|search|] == search then replace + ReplaceAll(s[|search|..], search, replace)
    else [s[0]] + ReplaceAll(s[1..], search, replace)
  }

  /** Dropping the first character shifts every occurrence one place to the left. */
  lemma OccursShift(t: string, pat: string, i: nat)
    requires |t| > 0
    ensures OccursAt(t[1..], pat, i) <==> OccursAt(t, pat, i + 1)
  {
    if i + |pat| <= |t[1..]| {
      assert t[1..][i..i + |pat|] == t[i + 1..i + 1 + |pat|];
    }
  }

  /** Dropping `n` characters shifts every occurrence `n` places to the left. */
  lemma OccursSuffix(s: string, pat: string, n: nat, i: nat)
    requires n <= |s|
    ensures OccursAt(s[n..], pat, i) <==> OccursAt(s, pat, n + i)
  {
    if i + |pat| <= |s[n..]| {
      assert s[n..][i..i + |pat|] == s[n + i..n + i + |pat|];
    }
  }

  /** A text in which `search` does not occur is left unchanged. */
  lemma {:induction false} ReplaceAbsent(t: string, search: string, replace: string)
    requires |search| > 0
    requires forall i :: 0 <= i ==> !OccursAt(t, search, i)
    ensures ReplaceAll(t, search, replace) == t
    decreases |t|
  {
    if |t| >= |search| {
      assert !OccursAt(t, search, 0);
      forall i | 0 <= i ensures !OccursAt(t[1..], search, i) {
        OccursShift(t, search, i);
      }
      ReplaceAbsent(t[1..], search, replace);
      assert [t[0]] + t[1..] == t;
    }
  }

  /** The leftmost occurrence, at `k`, is replaced and the text after it handled the same way. */
  lemma {:induction false} ReplaceFirst(t: string, search: string, replace: string, k: nat)
    requires |search| > 0
    requires OccursAt(t, search, k)
    requires forall i :: 0 <= i < k ==> !OccursAt(t, search, i)
    ensures ReplaceAll(t, search, replace)
         == t[..k] + replace + ReplaceAll(t[k + |search|..], search, replace)
    decreases k, 1
  {
    if k == 0 {
      ReplaceAtStart(t, search, replace);
    } else {
      ReplaceFirstLater(t, search, replace, k);
    }
  }

  /** The case of ReplaceFirst where the occurrence is not at the start. */
  lemma {:induction false} ReplaceFirstLater(t: string, search: string, replace: string, k: nat)
    requires |search| > 0 && k > 0
    requires OccursAt(t, search, k)
    requires forall i :: 0 <= i < k ==> !OccursAt(t, search, i)
    ensures ReplaceAll(t, search, replace)
         == t[..k] + replace + ReplaceAll(t[k + |search|..], search, replace)
    decreases k, 0
  {
    var t' := t[1..];
    assert k + |search| <= |t|;
    assert ReplaceAll(t, search, replace) == [t[0]] + ReplaceAll(t', search, replace)
        && ReplaceAll(t', search, replace)
           == t'[..k - 1] + replace + ReplaceAll(t'[k - 1 + |search|..], search, replace) by {
      ReplaceFirstShift(t, search, replace, k);
      ReplaceFirst(t', search, replace, k - 1);
    }
    ReplaceFirstAssemble(t, search, replace, k);
  }

  /** An occurrence at the very start is replaced first. */
  lemma ReplaceAtStart(t: string, search: string, replace: string)
    requires |search| > 0 && OccursAt(t, search, 0)
    ensures ReplaceAll(t, search, replace) == t[..0] + replace + ReplaceAll(t[|search|..], search, replace)
  {
    assert t[..|search|] == search;
    assert t[..0] + replace == replace;
  }

  /** Before the first occurrence, replacement keeps the first character and moves on. */
  lemma ReplaceFirstShift(t: string, search: string, replace: string, k: nat)
    requires |search| > 0 && k > 0
    requires OccursAt(t, search, k)
    requires forall i :: 0 <= i < k ==> !OccursAt(t, search, i)
    ensures |t| > 0 && OccursAt(t[1..], search, k - 1)
    ensures forall i :: 0 <= i < k - 1 ==> !OccursAt(t[1..], search, i)
    ensures ReplaceAll(t, search, replace) == [t[0]] + ReplaceAll(t[1..], search, replace)
  {
    assert !OccursAt(t, search, 0);
    OccursShift(t, search, k - 1);
    forall i | 0 <= i < k - 1 ensures !OccursAt(t[1..], search, i) {
      OccursShift(t, search, i);
    }
  }

  /** Putting the first character back in front of the replaced rest. */
  lemma ReplaceFirstAssemble(t: string, search: string, replace: string, k: nat)
    requires |search| > 0 && 0 < k && k + |search| <= |t|
    requires ReplaceAll(t, search, replace) == [t[0]] + ReplaceAll(t[1..], search, replace)
    requires ReplaceAll(t[1..], search, replace)
          == t[1..][..k - 1] + replace + ReplaceAll(t[1..][k - 1 + |search|..], search, replace)
    ensures ReplaceAll(t, search, replace)
         == t[..k] + replace + ReplaceAll(t[k + |search|..], search, replace)
  {
    var t' := t[1..];
    assert t'[k - 1 + |search|..] == t[k + |search|..];
    var rest := ReplaceAll(t[k + |search|..], search, replace);
    Regroup([t[0]], t'[..k - 1], replace, rest);
    assert [t[0]] + t'[..k - 1] == t[..k];
  }

  /** Concatenation regrouped. */
  lemma Regroup<T>(a: seq<T>, b: seq<T>, c: seq<T>, d: seq<T>)
    ensures a + (b + c + d) == (a + b) + c + d
  {
  }

  /**
   * `replaceString`: find the next occurrence from `pos`, splice in the
   * replacement, and continue the search just after the inserted text. The
   * search text must not be empty: with an empty one the search always
   * succeeds at `pos` and the loop never ends.
   */
  method ReplaceString(subject0: string, search: string, replace: string) returns (subject: string)
    requires |search| > 0
    ensures subject == ReplaceAll(subject0, search, replace)
    ensures (forall i :: 0 <= i ==> !OccursAt(subject0, search, i)) ==> subject == subject0
  {
    subject := subject0;
    var pos: nat := 0;
    var found := Find(subject, search, pos);
    while found.Some?
      invariant pos <= |subject|
      invariant found == Find(subject, search, pos)
      invariant subject[..pos] + ReplaceAll(subject[pos..], search, replace)
             == ReplaceAll(subject0, search, replace)
      decreases |subject| - pos
    {
      var p := found.value;
      var next := subject[..p] + replace + subject[p + |search|..];
      ReplaceStep(subject, search, replace, pos, p);
      subject := next;
      pos := p + |replace|;
      found := Find(subject, search, pos);
    }
    ReplaceRest(subject, search, replace, pos);
    if forall i :: 0 <= i ==> !OccursAt(subject0, search, i) {
      ReplaceAbsent(subject0, search, replace);
    }
  }

  /** One splice of the `replaceString` loop keeps its result on course. */
  lemma ReplaceStep(subject: string, search: string, replace: string, pos: nat, p: nat)
    requires |search| > 0 && pos <= p
    requires OccursAt(subject, search, p)
    requires forall i :: pos <= i < p ==> !OccursAt(subject, search, i)
    ensures var next := subject[..p] + replace + subject[p + |search|..];
      && p + |replace| <= |next|
      && next[..p + |replace|] + ReplaceAll(next[p + |replace|..], search, replace)
         == subject[..pos] + ReplaceAll(subject[pos..], search, replace)
  {
    var t := subject[pos..];
    var rest := ReplaceAll(subject[p + |search|..], search, replace);
    assert ReplaceAll(t, search, replace) == subject[pos..p] + replace + rest by {
      OccursSuffix(subject, search, pos, p - pos);
      forall i | 0 <= i < p - pos ensures !OccursAt(t, search, i) {
        OccursSuffix(subject, search, pos, i);
      }
      ReplaceFirst(t, search, replace, p - pos);
      assert t[..p - pos] == subject[pos..p];
      assert t[p - pos + |search|..] == subject[p + |search|..];
    }
    ReplaceSplice(subject, replace, pos, p, p + |search|, rest);
  }

  /** Splicing `replace` over `subject[p..q]`: the text before the search position, then the rest. */
  lemma ReplaceSplice(subject: string, replace: string, pos: nat, p: nat, q: nat, rest: string)
    requires pos <= p <= q <= |subject|
    ensures var next := subject[..p] + replace + subject[q..];
      && p + |replace| <= |next|
      && next[p + |replace|..] == subject[q..]
      && next[..p + |replace|] + rest == subject[..pos] + (subject[pos..p] + replace + rest)
  {
    var next := subject[..p] + replace + subject[q..];
    assert next[..p + |replace|] == subject[..p] + replace;
    assert next[p + |replace|..] == subject[q..];
    assert subject[..pos] + subject[pos..p] == subject[..p];
  }

  /** Once no occurrence remains after `pos`, the rest of the text stays as it is. */
  lemma ReplaceRest(subject: string, search: string, replace: string, pos: nat)
    requires |search| > 0 && pos <= |subject|
    requires forall i :: pos <= i ==> !OccursAt(subject, search, i)
    ensures subject[..pos] + ReplaceAll(subject[pos..], search, replace) == subject
  {
    var t := subject[pos..];
    forall i | 0 <= i ensures !OccursAt(t, search, i) {
      OccursSuffix(subject, search, pos, i);
    }
    ReplaceAbsent(t, search, replace);
    assert subject[..pos] + subject[pos..] == subject;
  }

  /** Replacing a text by itself changes nothing. */
  lemma {:induction false} ReplaceSelf(s: string, search: string)
    requires |search| > 0
    ensures ReplaceAll(s, search, search) == s
    decreases |s|
  {
    if |s| >= |search| {
      if s[..|search|] == search {
        ReplaceSelf(s[|search|..], search);
        assert s[..|search|] + s[|search|..] == s;
      } else {
        ReplaceSelf(s[1..], search);
        assert [s[0]] + s[1..] == s;
      }
    }
  }

  /** The character `winPath` stores for `c`. */
  function WinChar(c: char): char {
    if c == '/' then '\\' else c
  }

  /** `winPath`: rewrite every forward slash of the path as a backslash, in place. */
  method WinPath(path0: string) returns (path: string)
    ensures |path| == |path0|
    ensures forall i :: 0 <= i < |path0| && path0[i] == '/' ==> path[i] == '\\'
    ensures forall i :: 0 <= i < |path0| && path0[i] != '/' ==> path[i] == path0[i]
    ensures forall i :: 0 <= i < |path| ==> path[i] != '/'
    ensures path == WinPathOf(path0)
  {
    path := path0;
    var i := 0;
    while i < |path|
      invariant i <= |path| == |path0|
      invariant forall j :: 0 <= j < i ==> path[j] == WinChar(path0[j])
      invariant forall j :: i <= j < |path| ==> path[j] == path0[j]
    {
      if path[i] == '/' {
        path := path[i := '\\'];
      }
      i := i + 1;
    }
  }

  /** The path `winPath` produces, as a whole. */
  function WinPathOf(s: string): (r: string)
    ensures |r| == |s|
    ensures forall i :: 0 <= i < |s| ==> r[i] == WinChar(s[i])
  {
    if |s| == 0 then [] else [WinChar(s[0])] + WinPathOf(s[1..])
  }

  /** Converting an already converted path changes nothing. */
  lemma WinPathIdempotent(s: string)
    ensures WinPathOf(WinPathOf(s)) == WinPathOf(s)
  {
    var once := WinPathOf(s);
    var twice := WinPathOf(once);
    assert forall i :: 0 <= i < |s| ==> twice[i] == once[i];
  }
}
