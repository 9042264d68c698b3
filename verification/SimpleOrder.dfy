/**
  The string orders of SimpleIni, `SI_GenericCase` and `SI_GenericNoCase`, on NUL-terminated text in a buffer,
  and what `GetSectionSize` and `GetAllKeys` count with them.
 */
module SimpleOrder {
  import opened Letters
  import opened Wrappers

  // ---------------------------------------------------------------- text in a buffer

  /** The string at a pointer ends at the first NUL. */
  predicate Terminated(s: seq<char>, at: nat) {
    at <= |s| && '\0' in s[at..]
  }

  function NulAt(s: seq<char>, at: nat): (n: nat)
    requires Terminated(s, at)
    ensures at <= n < |s| && s[n] == '\0'
    decreases |s| - at
  {
    if s[at] == '\0' then at
    else
      assert s[at..] == [s[at]] + s[at + 1..];
      NulAt(s, at + 1)
  }

  lemma {:induction false} NulIsFirst(s: seq<char>, at: nat)
    requires Terminated(s, at)
    ensures '\0' !in s[at..NulAt(s, at)]
    decreases |s| - at
  {
    if s[at] != '\0' {
      assert s[at..] == [s[at]] + s[at + 1..];
      NulIsFirst(s, at + 1);
      assert s[at..NulAt(s, at)] == [s[at]] + s[at + 1..NulAt(s, at)];
    }
  }

  function TextAt(s: seq<char>, at: nat): (t: string)
    requires Terminated(s, at)
    ensures '\0' !in t && at + |t| == NulAt(s, at)
  {
    NulIsFirst(s, at);
    s[at..NulAt(s, at)]
  }

  /** A text without NUL and a NUL behind it. */
  predicate IsTextAt(s: seq<char>, at: nat, t: string) {
    at + |t| < |s| && s[at..at + |t|] == t && '\0' !in t && s[at + |t|] == '\0'
  }

  lemma TextIs(s: seq<char>, at: nat, t: string)
    requires IsTextAt(s, at, t)
    ensures Terminated(s, at) && TextAt(s, at) == t
  {
    assert s[at..][|t|] == '\0';
    var n := NulAt(s, at);
    forall k | at <= k < at + |t| ensures s[k] != '\0' {
      assert s[k] == t[k - at] && t[k - at] in t;
    }
    NulIsFirst(s, at);
    forall k | at <= k < n ensures s[k] != '\0' {
      assert s[k] == s[at..n][k - at];
    }
  }

  lemma TextIsThere(s: seq<char>, at: nat)
    requires Terminated(s, at)
    ensures IsTextAt(s, at, TextAt(s, at))
  {
  }

  lemma TextChars(s: seq<char>, at: nat, t: string)
    requires IsTextAt(s, at, t)
    ensures at + |t| < |s| && s[at + |t|] == '\0' && forall i :: 0 <= i < |t| ==> s[at + i] == t[i] != '\0'
  {
    forall i | 0 <= i < |t| ensures s[at + i] == t[i] != '\0' {
      assert s[at..at + |t|][i] == t[i] && t[i] in t;
    }
  }

  // ---------------------------------------------------------------- the orders

  /** Which comparator it is, and whether `char` is signed: then the eight-bit characters above 0x7F are negative. */
  datatype Order = Order(nocase: bool, signed: bool)

  function Locase(ch: char): char {
    if ch < 'A' || ch > 'Z' then ch else ch - 'A' + 'a'
  }

  /** What a character is compared as. */
  function Rank(ch: char, order: Order): char {
    if order.nocase then Locase(ch) else ch
  }

  /** The number that is compared. */
  function Code(ch: char, order: Order): int {
    if order.signed && 0x80 <= ch as int < 0x100 then ch as int - 0x100 else ch as int
  }

  function Folded(s: string, order: Order): (r: string)
    ensures |r| == |s| && forall i :: 0 <= i < |s| ==> r[i] == Rank(s[i], order)
  {
    if s == "" then "" else [Rank(s[0], order)] + Folded(s[1..], order)
  }

  /** The comparison of two strings, character by character; a string is less than what it begins. */
  predicate Less(left: string, right: string, order: Order) {
    if left == "" || right == "" then right != ""
    else if Rank(left[0], order) != Rank(right[0], order) then
      Code(Rank(left[0], order), order) < Code(Rank(right[0], order), order)
    else Less(left[1..], right[1..], order)
  }

  /** `operator()` of the comparators, on two pointers. */
  method IsLess(buf: array<char>, left: nat, right: nat, order: Order) returns (less: bool)
    requires Terminated(buf[..], left) && Terminated(buf[..], right)
    ensures less == Less(TextAt(buf[..], left), TextAt(buf[..], right), order)
  {
    ghost var l, r := TextAt(buf[..], left), TextAt(buf[..], right);
    var n: nat := 0;
    assert l[0..] == l && r[0..] == r;
    while buf[left + n] != '\0' && buf[right + n] != '\0'
      invariant n <= |l| && n <= |r|
      invariant left + |l| < buf.Length && right + |r| < buf.Length
      invariant forall i :: 0 <= i < |l| ==> buf[left + i] == l[i] != '\0'
      invariant forall i :: 0 <= i < |r| ==> buf[right + i] == r[i] != '\0'
      invariant buf[left + |l|] == '\0' && buf[right + |r|] == '\0'
      invariant Less(l[n..], r[n..], order) == Less(l, r, order)
      decreases |l| - n
    {
      var a, b := Rank(buf[left + n], order), Rank(buf[right + n], order);
      assert l[n..][1..] == l[n + 1..] && r[n..][1..] == r[n + 1..];
      if a != b {
        return Code(a, order) < Code(b, order);
      }
      n := n + 1;
    }
    return buf[right + n] != '\0';
  }

  /** The first place where two strings differ; one of them may end there. */
  ghost predicate Differ(l: string, r: string, i: nat) {
    && i <= |l| && i <= |r| && l[..i] == r[..i]
    && (i < |l| && i < |r| ==> l[i] != r[i]) && (i < |l| || i < |r|)
  }

  /** At the first difference `l` ends or has the smaller character. */
  ghost predicate Before(l: string, r: string, order: Order) {
    exists i: nat :: Differ(l, r, i) && i < |r| && (i < |l| ==> Code(l[i], order) < Code(r[i], order))
  }

  /** The comparators give the dictionary order of the folded strings. */
  lemma {:induction false} LessIsDictionaryOrder(left: string, right: string, order: Order)
    ensures Less(left, right, order) <==> Before(Folded(left, order), Folded(right, order), order)
  {
    var l, r := Folded(left, order), Folded(right, order);
    if left == "" || right == "" || l[0] != r[0] {
      FirstDiffer(l, r);
      assert Differ(l, r, 0) <==> left != "" || right != "";
    } else {
      LessIsDictionaryOrder(left[1..], right[1..], order);
      BeforeShift(l[0], Folded(left[1..], order), Folded(right[1..], order), order);
    }
  }

  lemma BeforeShift(c: char, l: string, r: string, order: Order)
    ensures Before([c] + l, [c] + r, order) <==> Before(l, r, order)
  {
    DifferShift(c, l, r);
    if Before(l, r, order) {
      var i: nat :| Differ(l, r, i) && i < |r| && (i < |l| ==> Code(l[i], order) < Code(r[i], order));
      assert Differ([c] + l, [c] + r, i + 1);
    }
    if Before([c] + l, [c] + r, order) {
      var i: nat :| Differ([c] + l, [c] + r, i) && i < |r| + 1
          && (i < |l| + 1 ==> Code(([c] + l)[i], order) < Code(([c] + r)[i], order));
      assert Differ([c] + l, [c] + r, (i - 1) + 1);
      assert Differ(l, r, i - 1);
    }
  }

  lemma FirstDiffer(l: string, r: string)
    requires l == "" || r == "" || l[0] != r[0]
    ensures forall i: nat :: Differ(l, r, i) ==> i == 0
  {
    forall i: nat | i > 0 ensures !Differ(l, r, i) {
      assert i <= |l| && i <= |r| ==> l[..i][0] == l[0] && r[..i][0] == r[0];
    }
  }

  lemma DifferShift(c: char, l: string, r: string)
    ensures !Differ([c] + l, [c] + r, 0)
    ensures forall i: nat :: Differ(l, r, i) <==> Differ([c] + l, [c] + r, i + 1)
  {
    forall i: nat ensures Differ(l, r, i) <==> Differ([c] + l, [c] + r, i + 1) {
      if i <= |l| && i <= |r| {
        assert ([c] + l)[..i + 1] == [c] + l[..i];
        assert ([c] + r)[..i + 1] == [c] + r[..i];
        assert ([c] + l[..i])[1..] == l[..i] && ([c] + r[..i])[1..] == r[..i];
      }
    }
  }

  /** Equal after folding: not a letter's case, if that is ignored, tells them apart. */
  predicate Same(left: string, right: string, order: Order) {
    Folded(left, order) == Folded(right, order)
  }

  lemma SameCons(left: string, right: string, order: Order)
    requires left != "" && right != ""
    ensures Same(left, right, order) <==>
      Rank(left[0], order) == Rank(right[0], order) && Same(left[1..], right[1..], order)
  {
    var l, r := Folded(left, order), Folded(right, order);
    assert l[1..] == Folded(left[1..], order) && r[1..] == Folded(right[1..], order);
    assert l == [l[0]] + l[1..] && r == [r[0]] + r[1..];
  }

  lemma {:induction false} Trichotomy(left: string, right: string, order: Order)
    ensures !Less(left, right, order) && !Less(right, left, order) <==> Same(left, right, order)
    ensures !(Less(left, right, order) && Less(right, left, order))
  {
    hide Rank;
    if left != "" && right != "" {
      SameCons(left, right, order);
      Trichotomy(left[1..], right[1..], order);
    }
  }

  lemma {:induction false} LessTransitive(a: string, b: string, c: string, order: Order)
    requires Less(a, b, order) && Less(b, c, order)
    ensures Less(a, c, order)
  {
    hide Rank;
    if a != "" && b != "" && c != "" && Rank(a[0], order) == Rank(b[0], order) == Rank(c[0], order) {
      LessTransitive(a[1..], b[1..], c[1..], order);
    }
  }

  lemma {:induction false} SameLess(a: string, b: string, c: string, order: Order)
    requires Same(a, b, order)
    ensures Less(a, c, order) <==> Less(b, c, order)
    ensures Less(c, a, order) <==> Less(c, b, order)
  {
    hide Rank;
    if a != "" && b != "" && c != "" {
      SameCons(a, b, order);
      SameLess(a[1..], b[1..], c[1..], order);
    }
  }

  /** Both comparators are strict weak orders, and their equivalence is equality after folding. */
  lemma StrictWeakOrder(a: string, b: string, c: string, order: Order)
    ensures !Less(a, a, order)
    ensures Less(a, b, order) && Less(b, c, order) ==> Less(a, c, order)
    ensures !Less(a, b, order) && !Less(b, a, order) <==> Same(a, b, order)
    ensures Same(a, b, order) ==>
      (Less(a, c, order) <==> Less(b, c, order)) && (Less(c, a, order) <==> Less(c, b, order))
  {
    hide Same, Less;
    Trichotomy(a, a, order);
    Trichotomy(a, b, order);
    if Less(a, b, order) && Less(b, c, order) {
      LessTransitive(a, b, c, order);
    }
    if Same(a, b, order) {
      SameLess(a, b, c, order);
    }
  }

  /** Is there no difference between two characters? */
  predicate Alike(c: char, d: char, nocase: bool) {
    if nocase then SameLetter(c, d) else c == d
  }

  /** The number of a character of eight bits, or of the small letter that stands for a capital. */
  function Number(c: char, order: Order): int {
    var n := if order.nocase && 'A' <= c <= 'Z' then c as int + 32 else c as int;
    if order.signed && 128 <= n <= 255 then n - 256 else n
  }

  lemma RankIs(c: char, d: char, order: Order)
    ensures Rank(c, order) == Rank(d, order) <==> Alike(c, d, order.nocase)
    ensures Code(Rank(c, order), order) == Number(c, order)
  {
  }

  /** Two strings are the same key exactly if they differ in nothing, or in nothing but the case of letters. */
  lemma SameIff(a: string, b: string, order: Order)
    ensures Same(a, b, order) <==> |a| == |b| && forall i :: 0 <= i < |a| ==> Alike(a[i], b[i], order.nocase)
  {
    hide Rank, Alike;
    var l, r := Folded(a, order), Folded(b, order);
    forall i | 0 <= i < |a| && i < |b| ensures l[i] == r[i] <==> Alike(a[i], b[i], order.nocase) {
      RankIs(a[i], b[i], order);
    }
  }

  /** What is less is decided at the first place where they differ: one of them ends there, or by the numbers. */
  lemma {:induction false} LessAt(left: string, right: string, i: nat, order: Order)
    requires i <= |left| && i <= |right| && (forall k :: 0 <= k < i ==> Alike(left[k], right[k], order.nocase))
    requires i < |left| && i < |right| ==> !Alike(left[i], right[i], order.nocase)
    ensures Less(left, right, order) <==>
      i < |right| && (i < |left| ==> Number(left[i], order) < Number(right[i], order))
  {
    hide Rank, Alike, Number, Code;
    if left != "" && right != "" {
      RankIs(left[0], right[0], order);
      RankIs(right[0], left[0], order);
      if i > 0 {
        LessAt(left[1..], right[1..], i - 1, order);
      }
    }
  }

  // ---------------------------------------------------------------- keys of a section

  /** The order a multimap keeps its keys in: no key is less than one before it. */
  ghost predicate Sorted(keys: seq<string>, order: Order) {
    forall i, j :: 0 <= i < j < |keys| ==> !Less(keys[j], keys[i], order)
  }

  /** The keys a section has, whatever their spelling. */
  ghost function Distinct(keys: seq<string>, order: Order): set<string> {
    set i | 0 <= i < |keys| :: Folded(keys[i], order)
  }

  lemma NotSame(a: string, b: string, c: string, order: Order)
    requires Less(c, b, order) && !Less(c, a, order)
    ensures !Same(a, b, order)
  {
    hide Less, Folded;
    if Same(a, b, order) {
      SameLess(a, b, c, order);
    }
  }

  /** In a sorted list the key at `n` is a new one exactly if it is greater than the last new one. */
  lemma NewKey(keys: seq<string>, n: nat, last: string, order: Order)
    requires Sorted(keys, order) && 0 < n < |keys| && last in keys[..n]
    requires Same(last, keys[n - 1], order)
    ensures Less(last, keys[n], order) <==> Folded(keys[n], order) !in Distinct(keys[..n], order)
    ensures !Less(last, keys[n], order) ==> Same(last, keys[n], order)
    ensures |Distinct(keys[..n + 1], order)|
      == |Distinct(keys[..n], order)| + if Less(last, keys[n], order) then 1 else 0
  {
    hide Less, Folded;
    Trichotomy(last, keys[n], order);
    SameLess(last, keys[n - 1], keys[n], order);
    assert keys[..n + 1] == keys[..n] + [keys[n]];
    DistinctLast(keys[..n], keys[n], order);
    var before := Distinct(keys[..n], order);
    if Less(last, keys[n], order) {
      forall i | 0 <= i < n ensures !Same(keys[i], keys[n], order) {
        SameLess(last, keys[n - 1], keys[i], order);
        Trichotomy(keys[i], keys[i], order);
        NotSame(keys[i], keys[n], last, order);
      }
    } else {
      var i :| 0 <= i < n && keys[..n][i] == last;
      assert before + {Folded(keys[n], order)} == before;
    }
  }

  lemma FirstKey(keys: seq<string>, order: Order)
    ensures Distinct(keys[..0], order) == {}
    ensures keys != [] ==> Distinct(keys[..1], order) == {Folded(keys[0], order)}
  {
    hide Folded;
    if keys != [] {
      assert keys[..1][0] == keys[0];
    }
  }

  /** `GetSectionSize` with the section that was looked up, if there is one. */
  method GetSectionSize(found: Option<seq<string>>, multiKey: bool, order: Order) returns (count: int)
    ensures found.None? <==> count == -1
    ensures found.Some? && !multiKey ==> count == |found.value|
    ensures found.Some? && multiKey && Sorted(found.value, order) ==> count == |Distinct(found.value, order)|
  {
    hide Less, Folded, Distinct, Sorted;
    if found.None? {
      return -1;
    }
    var section := found.value;
    FirstKey(section, order);
    if !multiKey || |section| == 0 {
      assert section[..0] == section || |section| > 0;
      return |section|;
    }
    count := 0;
    var last := "";
    for n := 0 to |section|
      invariant 0 <= count && (Sorted(section, order) ==> count == |Distinct(section[..n], order)|)
      invariant n > 0 ==> last in section[..n]
      invariant Sorted(section, order) && n > 0 ==> Same(last, section[n - 1], order)
    {
      if n > 0 && Sorted(section, order) {
        NewKey(section, n, last, order);
      } else if n == 0 {
        FirstKey(section, order);
      }
      assert section[..n + 1] == section[..n] + [section[n]];
      if n == 0 || Less(last, section[n], order) {
        count := count + 1;
        last := section[n];
      }
    }
    assert section[..|section|] == section;
  }

  /** `name` is among the keys, and no other spelling of it stands in front of it. */
  ghost predicate FirstSpelling(keys: seq<string>, name: string, order: Order) {
    exists j :: 0 <= j < |keys| && keys[j] == name && forall k :: 0 <= k < j ==> !Same(keys[k], name, order)
  }

  /** One of `names` for each of `keys`, the first of its spellings. */
  ghost predicate OneEach(names: seq<string>, keys: seq<string>, order: Order) {
    && Distinct(names, order) == Distinct(keys, order) && |names| == |Distinct(keys, order)|
    && (forall i :: 0 <= i < |names| ==> FirstSpelling(keys, names[i], order))
    && forall i, j :: 0 <= i < j < |names| ==> Less(names[i], names[j], order)
  }

  lemma AddName(names: seq<string>, keys: seq<string>, key: string, order: Order)
    requires OneEach(names, keys, order) && Folded(key, order) !in Distinct(keys, order)
    requires names != [] ==> Less(names[|names| - 1], key, order)
    ensures OneEach(names + [key], keys + [key], order)
  {
    hide Less, Folded, Distinct, FirstSpelling;
    var k := keys + [key];
    DistinctLast(names, key, order);
    DistinctLast(keys, key, order);
    forall i | 0 <= i < |names| ensures Less(names[i], key, order) {
      if i < |names| - 1 {
        LessTransitive(names[i], names[|names| - 1], key, order);
      }
    }
    assert k[|keys|] == key;
    InLonger(names, keys, key, order);
    NewSpelling(keys, key, order);
  }

  lemma InLonger(names: seq<string>, keys: seq<string>, key: string, order: Order)
    requires forall i :: 0 <= i < |names| ==> FirstSpelling(keys, names[i], order)
    ensures forall i :: 0 <= i < |names| ==> FirstSpelling(keys + [key], names[i], order)
  {
    hide Same;
    var more := keys + [key];
    forall i | 0 <= i < |names| ensures FirstSpelling(more, names[i], order) {
      var j :| 0 <= j < |keys| && keys[j] == names[i] && forall k :: 0 <= k < j ==> !Same(keys[k], names[i], order);
      assert more[j] == names[i] && forall k :: 0 <= k < j ==> more[k] == keys[k];
    }
  }

  lemma NewSpelling(keys: seq<string>, key: string, order: Order)
    requires Folded(key, order) !in Distinct(keys, order)
    ensures FirstSpelling(keys + [key], key, order)
  {
    hide Folded;
    var more := keys + [key];
    forall k | 0 <= k < |keys| ensures !Same(more[k], key, order) {
      assert more[k] == keys[k];
    }
    assert more[|keys|] == key;
  }

  lemma DistinctLast(keys: seq<string>, key: string, order: Order)
    ensures Distinct(keys + [key], order) == Distinct(keys, order) + {Folded(key, order)}
  {
    hide Folded;
    var k := keys + [key];
    assert k[|keys|] == key;
    assert forall i :: 0 <= i < |keys| ==> k[i] == keys[i];
  }

  /**
    `GetAllKeys` with the section that was looked up, if there is one: every key once, in increasing order, as many
    as `GetSectionSize` counts.
   */
  method GetAllKeys(found: Option<seq<string>>, order: Order) returns (ok: bool, names: seq<string>)
    ensures ok <==> found.Some?
    ensures found.None? ==> names == []
    ensures found.Some? && Sorted(found.value, order) ==> OneEach(names, found.value, order)
  {
    hide Less, Folded, Distinct, Sorted, OneEach;
    ok, names := false, [];
    if found.None? {
      return;
    }
    var section := found.value;
    ok := true;
    var last := "";
    FirstKey(section, order);
    NoNames(order);
    for n := 0 to |section|
      invariant Sorted(section, order) ==> OneEach(names, section[..n], order)
      invariant n > 0 ==> last in section[..n] && names != [] && names[|names| - 1] == last
      invariant n == 0 ==> names == []
      invariant Sorted(section, order) && n > 0 ==> Same(last, section[n - 1], order)
    {
      if n > 0 && Sorted(section, order) {
        NewKey(section, n, last, order);
      }
      assert section[..n + 1] == section[..n] + [section[n]];
      if n == 0 || Less(last, section[n], order) {
        if Sorted(section, order) {
          AddName(names, section[..n], section[n], order);
        }
        names := names + [section[n]];
        last := section[n];
      } else if Sorted(section, order) {
        RepeatedName(names, section[..n], section[n], order);
      }
    }
    assert section[..|section|] == section;
  }

  lemma NoNames(order: Order)
    ensures OneEach([], [], order)
  {
    assert Distinct([], order) == {};
  }

  lemma RepeatedName(names: seq<string>, keys: seq<string>, key: string, order: Order)
    requires OneEach(names, keys, order) && Folded(key, order) in Distinct(keys, order)
    ensures OneEach(names, keys + [key], order)
  {
    hide Less, Folded, Distinct;
    DistinctLast(keys, key, order);
    assert Distinct(keys, order) + {Folded(key, order)} == Distinct(keys, order);
    InLonger(names, keys, key, order);
  }
}
