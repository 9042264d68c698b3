/**
  The string operations of mINI: trimming, lower case, and the replacement that its escapes are built on.
 */
module IniText {
  import opened Letters

  // ---------------------------------------------------------------- trimming

  /** The six delimiters of `trim`. */
  predicate IsBlank(c: char) {
    c == ' ' || c == '\t' || c == '\n' || c == '\r' || c == '\U{0C}' || c == '\U{0B}'
  }

  predicate AllBlank(s: string) {
    forall i :: 0 <= i < |s| ==> IsBlank(s[i])
  }

  predicate Trimmed(s: string) {
    s == "" || (!IsBlank(s[0]) && !IsBlank(s[|s| - 1]))
  }

  function TrimEnd(s: string): string {
    if s != "" && IsBlank(s[|s| - 1]) then TrimEnd(s[..|s| - 1]) else s
  }

  function TrimStart(s: string): string {
    if s != "" && IsBlank(s[0]) then TrimStart(s[1..]) else s
  }

  lemma {:induction false} TrimEndParts(s: string)
    ensures var r := TrimEnd(s);
      r <= s && AllBlank(s[|r|..]) && (r == "" || !IsBlank(r[|r| - 1]))
    decreases |s|
  {
    if s != "" && IsBlank(s[|s| - 1]) {
      TrimEndParts(s[..|s| - 1]);
      var r := TrimEnd(s);
      assert s[|r|..] == s[..|s| - 1][|r|..] + [s[|s| - 1]];
    }
  }

  lemma {:induction false} TrimStartParts(s: string)
    ensures var r := TrimStart(s);
      |r| <= |s| && r == s[|s| - |r|..] && AllBlank(s[..|s| - |r|]) && (r == "" || !IsBlank(r[0]))
    decreases |s|
  {
    if s != "" && IsBlank(s[0]) {
      TrimStartParts(s[1..]);
      var r := TrimStart(s);
      assert s[..|s| - |r|] == [s[0]] + s[1..][..|s[1..]| - |r|];
    }
  }

  function Trim(s: string): (r: string)
    ensures |r| <= |s| && Trimmed(r)
  {
    TrimEndParts(s);
    TrimStartParts(TrimEnd(s));
    TrimStart(TrimEnd(s))
  }

  /** What is trimmed away is blank, and what is left is in one piece. */
  lemma TrimParts(s: string) returns (before: string, after: string)
    ensures s == before + Trim(s) + after && AllBlank(before) && AllBlank(after)
  {
    hide IsBlank, TrimStart, TrimEnd;
    TrimEndParts(s);
    TrimStartParts(TrimEnd(s));
    var e, n := TrimEnd(s), |TrimEnd(s)| - |Trim(s)|;
    before, after := e[..n], s[|e|..];
    assert s == e + after;
    assert e == before + e[n..];
  }

  /** Only the trimmed text is left between blanks. */
  lemma TrimBetween(before: string, mid: string, after: string)
    requires AllBlank(before) && AllBlank(after) && Trimmed(mid)
    ensures Trim(before + mid + after) == mid
  {
    TrimEndBlank(before + mid, after);
    TrimStartBlank(before, mid);
    if mid == "" {
      TrimEndBlank([], before);
      assert [] + before == before && before + mid == before;
    } else {
      assert (before + mid)[|before + mid| - 1] == mid[|mid| - 1];
    }
  }

  lemma {:induction false} TrimEndBlank(s: string, after: string)
    requires AllBlank(after)
    ensures TrimEnd(s + after) == TrimEnd(s)
    decreases |after|
  {
    if after == "" {
      assert s + after == s;
    } else {
      var most := after[..|after| - 1];
      hide IsBlank;
      assert IsBlank((s + after)[|s + after| - 1]);
      TrimEndBlank(s, most);
      assert (s + after)[..|s + after| - 1] == s + most;
    }
  }

  lemma {:induction false} TrimStartBlank(before: string, s: string)
    requires AllBlank(before)
    ensures TrimStart(before + s) == TrimStart(s)
    decreases |before|
  {
    if before == "" {
      assert before + s == s;
    } else {
      hide IsBlank;
      assert IsBlank((before + s)[0]);
      TrimStartBlank(before[1..], s);
      assert (before + s)[1..] == before[1..] + s;
    }
  }

  lemma TrimIgnoresAfter(s: string, after: string)
    requires AllBlank(after)
    ensures Trim(s + after) == Trim(s)
  {
    TrimEndBlank(s, after);
  }

  lemma TrimmedStays(s: string)
    requires Trimmed(s)
    ensures Trim(s) == s
  {
    TrimBetween("", s, "");
    assert "" + s + "" == s;
  }

  /** `mid` is a part of `s`, only white space is around it, and none is at its own ends. */
  ghost predicate TrimmedPart(s: string, mid: string, i: nat) {
    var whitespaceDelimiters := " \t\n\r\U{0C}\U{0B}";
    && i + |mid| <= |s| && s[i..i + |mid|] == mid
    && (forall k :: 0 <= k < i || i + |mid| <= k < |s| ==> s[k] in whitespaceDelimiters)
    && (mid != "" ==> mid[0] !in whitespaceDelimiters && mid[|mid| - 1] !in whitespaceDelimiters)
  }

  lemma BlankCharacters(c: char)
    ensures IsBlank(c) <==> c in " \t\n\r\U{0C}\U{0B}"
  {
  }

  /** Trimming gives the one such part, for every text. */
  lemma TrimIs(s: string, mid: string)
    ensures Trim(s) == mid <==> exists i: nat :: TrimmedPart(s, mid, i)
  {
    hide Trim, IsBlank;
    forall c: char ensures IsBlank(c) <==> c in " \t\n\r\U{0C}\U{0B}" {
      BlankCharacters(c);
    }
    var before, after := TrimParts(s);
    assert forall k :: 0 <= k < |before| ==> s[k] == before[k];
    assert forall k :: |before| + |Trim(s)| <= k < |s| ==> s[k] == after[k - |before| - |Trim(s)|];
    assert TrimmedPart(s, Trim(s), |before|);
    if i: nat :| TrimmedPart(s, mid, i) {
      assert s == s[..i] + mid + s[i + |mid|..];
      TrimBetween(s[..i], mid, s[i + |mid|..]);
    }
  }

  // ---------------------------------------------------------------- lower case

  /** `tolower` on ASCII. */
  function LowerChar(c: char): char {
    if 'A' <= c <= 'Z' then (c as int + 32) as char else c
  }

  function Lower(s: string): (r: string)
    ensures |r| == |s| && forall i :: 0 <= i < |s| ==> r[i] == LowerChar(s[i])
  {
    seq(|s|, i requires 0 <= i < |s| => LowerChar(s[i]))
  }

  /** The form in which section and key names are stored and looked up. */
  function Norm(key: string): string {
    Lower(Trim(key))
  }

  predicate Normal(key: string) {
    Norm(key) == key
  }

  lemma LowerTwice(s: string)
    ensures Lower(Lower(s)) == Lower(s)
  {
  }

  lemma NormIsNormal(key: string)
    ensures Normal(Norm(key)) && Trimmed(Norm(key))
  {
    hide Trim;
    var n := Norm(key);
    assert forall i :: 0 <= i < |n| ==> IsBlank(n[i]) == IsBlank(Trim(key)[i]);
    TrimmedStays(n);
    LowerTwice(Trim(key));
  }

  lemma NormalIsTrimmed(key: string)
    requires Normal(key)
    ensures Trimmed(key)
  {
    NormIsNormal(key);
  }

  /** White space around them and the case of their letters aside, `a` and `b` are the same. */
  predicate SameName(a: string, b: string) {
    |Trim(a)| == |Trim(b)| && forall i :: 0 <= i < |Trim(a)| ==> SameLetter(Trim(a)[i], Trim(b)[i])
  }

  /** A name is stored trimmed and without capitals, and otherwise as it is. */
  lemma NormIs(a: string)
    ensures SameName(Norm(a), a) && Trimmed(Norm(a))
    ensures forall i :: 0 <= i < |Norm(a)| ==> !('A' <= Norm(a)[i] <= 'Z')
  {
    hide Trim;
    NormIsNormal(a);
    TrimmedStays(Norm(a));
  }

  /** Two names are stored as one exactly if they differ in nothing but blanks around them and the case of letters. */
  lemma NormSameIff(a: string, b: string)
    ensures Norm(a) == Norm(b) <==> SameName(a, b)
  {
    hide Trim;
    var s, t := Trim(a), Trim(b);
    forall i | 0 <= i < |s| && i < |t| ensures Norm(a)[i] == Norm(b)[i] <==> SameLetter(s[i], t[i]) {
    }
  }

  // ---------------------------------------------------------------- searching

  /** `find_first_of` for one character; the length stands for npos. */
  function Find(s: string, c: char): (i: nat)
    ensures i <= |s| && (i < |s| ==> s[i] == c) && forall k :: 0 <= k < i ==> s[k] != c
  {
    if s == "" || s[0] == c then 0 else Find(s[1..], c) + 1
  }

  /** `find_last_of` for one character; -1 stands for npos. */
  function FindLast(s: string, c: char): (i: int)
    ensures -1 <= i < |s| && (i >= 0 ==> s[i] == c) && forall k :: i < k < |s| ==> s[k] != c
  {
    if s == "" then -1
    else if s[|s| - 1] == c then |s| - 1
    else
      FindLast(s[..|s| - 1], c)
  }

  /** `find_first_not_of` the delimiters, from `pos` on; the length stands for npos. */
  function FindNonBlank(s: string, pos: nat): (i: nat)
    requires pos <= |s|
    ensures pos <= i <= |s| && (i < |s| ==> !IsBlank(s[i])) && forall k :: pos <= k < i ==> IsBlank(s[k])
    decreases |s| - pos
  {
    if pos == |s| || !IsBlank(s[pos]) then pos else FindNonBlank(s, pos + 1)
  }

  lemma FindUnique(s: string, c: char, i: nat)
    requires i <= |s| && c !in s[..i] && (i < |s| ==> s[i] == c)
    ensures Find(s, c) == i
  {
    var j := Find(s, c);
    forall k | 0 <= k < i ensures s[k] != c {
      assert s[..i][k] == s[k];
    }
  }

  // ---------------------------------------------------------------- replacing

  /** Left to right, every occurrence of `a` becomes `b`; what was put in is not searched again. */
  function ReplaceAll(s: string, a: string, b: string): (r: string)
    requires a != ""
  {
    if |s| < |a| then s
    else if s[..|a|] == a then b + ReplaceAll(s[|a|..], a, b)
    else [s[0]] + ReplaceAll(s[1..], a, b)
  }

  predicate Occurs(s: string, a: string, i: int) {
    0 <= i && i + |a| <= |s| && s[i..i + |a|] == a
  }

  /** `str.find(a, pos)`; a value past the end stands for npos. */
  method FindFrom(str: string, a: string, pos: nat) returns (at: nat)
    requires a != "" && pos <= |str|
    ensures pos <= at && (at <= |str| ==> Occurs(str, a, at))
    ensures forall i :: pos <= i < at ==> !Occurs(str, a, i)
  {
    at := pos;
    while at + |a| <= |str|
      invariant pos <= at
      invariant forall i :: pos <= i < at ==> !Occurs(str, a, i)
      decreases |str| - at
    {
      if str[at..at + |a|] == a {
        return;
      }
      at := at + 1;
    }
    at := |str| + 1;
  }

  /** Text before the first occurrence stays as it is. */
  lemma {:induction false} ReplaceSkips(s: string, n: nat, a: string, b: string)
    requires a != "" && n <= |s|
    requires forall i :: 0 <= i < n ==> !Occurs(s, a, i)
    ensures ReplaceAll(s, a, b) == s[..n] + ReplaceAll(s[n..], a, b)
  {
    if n == 0 {
      assert s[0..] == s;
    } else if |s| < |a| {
      assert s == s[..n] + s[n..];
    } else {
      assert !Occurs(s, a, 0);
      assert s[..|a|] == s[0..0 + |a|];
      OccursLater(s, a, n);
      ReplaceSkips(s[1..], n - 1, a, b);
      assert s[..n] == [s[0]] + s[1..][..n - 1];
      assert s[1..][n - 1..] == s[n..];
    }
  }

  lemma OccursLater(s: string, a: string, n: nat)
    requires s != "" && n > 0 && forall i :: 0 <= i < n ==> !Occurs(s, a, i)
    ensures forall i :: 0 <= i < n - 1 ==> !Occurs(s[1..], a, i)
  {
    OccursInSuffix(s, a, 1, n);
  }

  lemma OccursInSuffix(s: string, a: string, pos: nat, end: nat)
    requires pos <= |s| && pos <= end && forall i :: pos <= i < end ==> !Occurs(s, a, i)
    ensures forall i :: 0 <= i < end - pos ==> !Occurs(s[pos..], a, i)
  {
    forall i | 0 <= i < end - pos ensures !Occurs(s[pos..], a, i) {
      assert !Occurs(s, a, pos + i);
      if i + |a| <= |s[pos..]| {
        assert s[pos..][i..i + |a|] == s[pos + i..pos + i + |a|];
      }
    }
  }

  lemma ReplaceHere(s: string, a: string, b: string)
    requires a != "" && |a| <= |s| && s[..|a|] == a
    ensures ReplaceAll(s, a, b) == b + ReplaceAll(s[|a|..], a, b)
  {
  }

  /** One turn of `replace`: `r[..pos]` is final, the first occurrence behind it is at `at`. */
  lemma ReplaceStep(r: string, pos: nat, at: nat, a: string, b: string)
    requires a != "" && pos <= at && Occurs(r, a, at) && forall i :: pos <= i < at ==> !Occurs(r, a, i)
    ensures r[..pos] + ReplaceAll(r[pos..], a, b) == r[..at] + b + ReplaceAll(r[at + |a|..], a, b)
  {
    hide ReplaceAll;
    var tail := ReplaceAll(r[at + |a|..], a, b);
    ReplaceRest(r, pos, at, a, b);
    assert r[..at] == r[..pos] + r[pos..at];
  }

  lemma ReplaceRest(r: string, pos: nat, at: nat, a: string, b: string)
    requires a != "" && pos <= at && Occurs(r, a, at) && forall i :: pos <= i < at ==> !Occurs(r, a, i)
    ensures ReplaceAll(r[pos..], a, b) == r[pos..at] + (b + ReplaceAll(r[at + |a|..], a, b))
  {
    hide ReplaceAll;
    OccursInSuffix(r, a, pos, at);
    ReplaceSkips(r[pos..], at - pos, a, b);
    assert r[pos..][..at - pos] == r[pos..at];
    assert r[pos..][at - pos..] == r[at..];
    assert r[at..][..|a|] == a;
    ReplaceHere(r[at..], a, b);
    assert r[at..][|a|..] == r[at + |a|..];
  }

  /** The last turn: nothing more to replace. */
  lemma ReplaceEnds(r: string, pos: nat, a: string, b: string)
    requires a != "" && pos <= |r| && forall i :: pos <= i <= |r| ==> !Occurs(r, a, i)
    ensures r[..pos] + ReplaceAll(r[pos..], a, b) == r
  {
    var rest := r[pos..];
    OccursInSuffix(r, a, pos, |r|);
    ReplaceSkips(rest, |rest|, a, b);
    assert rest[|rest|..] == "" && r[..pos] + rest == r;
  }

  /** The first occurrence is replaced, then those behind it; without one the text stays. */
  lemma ReplacedFromTheLeft(s: string, a: string, b: string, at: nat)
    requires a != "" && forall i :: 0 <= i < at && i <= |s| ==> !Occurs(s, a, i)
    ensures Occurs(s, a, at) ==> ReplaceAll(s, a, b) == s[..at] + b + ReplaceAll(s[at + |a|..], a, b)
    ensures at > |s| ==> ReplaceAll(s, a, b) == s
  {
    hide ReplaceAll;
    assert s[..0] == "" && s[0..] == s;
    if Occurs(s, a, at) {
      ReplaceStep(s, 0, at, a, b);
    } else if at > |s| {
      ReplaceEnds(s, 0, a, b);
    }
  }

  /**
    The loop of `replace`. It ends even when `b` contains `a`, because the search goes on behind what was put in.
   */
  method Replace(str: string, a: string, b: string) returns (r: string)
    ensures a == "" ==> r == str
    ensures a != "" ==> r == ReplaceAll(str, a, b)
  {
    r := str;
    if a != "" {
      var pos: nat := 0;
      assert r[..0] == "" && r[0..] == r;
      while true
        invariant pos <= |r|
        invariant r[..pos] + ReplaceAll(r[pos..], a, b) == ReplaceAll(str, a, b)
        decreases |r| - pos
      {
        var at := FindFrom(r, a, pos);
        if at > |r| {
          ReplaceEnds(r, pos, a, b);
          break;
        }
        ReplaceStep(r, pos, at, a, b);
        var next := r[..at] + b + r[at + |a|..];
        assert next[..at + |b|] == r[..at] + b && next[at + |b|..] == r[at + |a|..];
        r, pos := next, at + |b|;
      }
    }
  }
}
