/**
  `INIParser::parseLine` and the lines that the generator and the writer print, with the exact
  conditions under which a printed line is read back.
 */
module IniParser {
  import opened IniText

  /** What one line is; `BlankLine` is PDATA_NONE. */
  datatype Parsed =
    | BlankLine
    | Comment
    | Section(name: string)
    | KeyValue(key: string, value: string)
    | Unknown

  function Escape(key: string): string {
    ReplaceAll(key, "=", "\\=")
  }

  function Unescape(key: string): string {
    ReplaceAll(key, "\\=", "=")
  }

  /** The line with its escaped delimiters blanked out, index for index. */
  function LineNorm(line: string): string {
    ReplaceAll(line, "\\=", "  ")
  }

  function ParseEntry(line: string): Parsed {
    var norm := LineNorm(line);
    var equalsAt := Find(norm, '=');
    NormKeepsLength(line);
    if equalsAt < |norm| then
      KeyValue(Unescape(Trim(line[..equalsAt])), Trim(line[equalsAt + 1..]))
    else Unknown
  }

  function ParseLine(line: string): Parsed {
    var text := Trim(line);
    if text == "" then BlankLine
    else if text[0] == ';' then Comment
    else if text[0] == '[' then
      var open := text[..Find(text, ';')];
      var closingBracketAt := FindLast(open, ']');
      if closingBracketAt >= 1 then Section(Trim(open[1..closingBracketAt]))
      else ParseEntry(open)
    else ParseEntry(text)
  }

  // ---------------------------------------------------------------- the escape algebra

  /** A delimiter that a backslash escapes. */
  predicate Escaped(s: string, i: int) {
    0 < i < |s| && s[i] == '=' && s[i - 1] == '\\'
  }

  predicate Bare(s: string, i: int) {
    0 <= i < |s| && s[i] == '=' && !Escaped(s, i)
  }

  /** The character of the normalised line at `i`. */
  function NormChar(s: string, i: int): char
    requires 0 <= i < |s|
  {
    if Escaped(s, i) || Escaped(s, i + 1) then ' ' else s[i]
  }

  /** `lineNorm` is aligned with the line, and differs from it exactly in the escapes. */
  lemma {:induction false} NormAligned(s: string)
    ensures |LineNorm(s)| == |s|
    ensures forall i :: 0 <= i < |s| ==> LineNorm(s)[i] == NormChar(s, i)
  {
    if |s| >= 2 {
      if s[..2] == "\\=" {
        NormAligned(s[2..]);
        assert s[0] == s[..2][0] && s[1] == s[..2][1];
        forall i | 2 <= i < |s| ensures LineNorm(s)[i] == NormChar(s, i) {
          assert NormChar(s, i) == NormChar(s[2..], i - 2);
        }
      } else {
        NormAligned(s[1..]);
        assert s[..2] == [s[0], s[1]];
        forall i | 1 <= i < |s| ensures LineNorm(s)[i] == NormChar(s, i) {
          assert NormChar(s, i) == NormChar(s[1..], i - 1);
        }
      }
    }
  }

  lemma NormKeepsLength(s: string)
    ensures |LineNorm(s)| == |s|
  {
    NormAligned(s);
  }

  ghost predicate NoBare(s: string) {
    forall i :: 0 <= i < |s| ==> !Bare(s, i)
  }

  ghost predicate FirstBare(s: string, k: nat) {
    Bare(s, k) && forall i :: 0 <= i < k ==> !Bare(s, i)
  }

  /** So the delimiter found in the normalised line is the first bare one of the line itself. */
  lemma DelimiterIsFirstBare(s: string)
    ensures var k := Find(LineNorm(s), '=');
      k <= |s| && (k < |s| ==> FirstBare(s, k)) && (k == |s| ==> NoBare(s))
  {
    NormAligned(s);
    var norm, k := LineNorm(s), Find(LineNorm(s), '=');
    forall i | 0 <= i < |s| ensures norm[i] == '=' <==> Bare(s, i) {
      assert norm[i] == NormChar(s, i);
    }
    forall i | 0 <= i < k ensures !Bare(s, i) {
      assert norm[..k][i] == norm[i];
    }
  }

  /** Escaping goes character by character. */
  lemma EscapeCons(c: char, rest: string)
    ensures Escape([c] + rest) == (if c == '=' then "\\=" else [c]) + Escape(rest)
  {
    assert ([c] + rest)[..1] == [c] && ([c] + rest)[1..] == rest;
  }

  lemma UnescapeHere(rest: string)
    ensures Unescape("\\=" + rest) == "=" + Unescape(rest)
  {
    assert ("\\=" + rest)[..2] == "\\=" && ("\\=" + rest)[2..] == rest;
  }

  lemma UnescapeSkips(c: char, rest: string)
    requires c != '\\' || rest == "" || rest[0] != '='
    ensures Unescape([c] + rest) == [c] + Unescape(rest)
  {
    var s := [c] + rest;
    assert s[1..] == rest;
    if |s| >= 2 {
      assert s[..2] == [c, rest[0]];
    }
  }

  /** An escaped key has no bare delimiter, so it does not begin with one, and it keeps its last character. */
  lemma {:induction false} EscapedKey(key: string)
    ensures forall i :: 0 <= i < |Escape(key)| ==> !Bare(Escape(key), i)
    ensures key == "" <==> Escape(key) == ""
    ensures key != "" ==> Escape(key)[|Escape(key)| - 1] == key[|key| - 1]
    ensures key != "" ==> Escape(key)[0] == if key[0] == '=' then '\\' else key[0]
  {
    if key != "" {
      var rest := key[1..];
      EscapedKey(rest);
      EscapeCons(key[0], rest);
      assert key == [key[0]] + rest;
      var head, tail := if key[0] == '=' then "\\=" else [key[0]], Escape(rest);
      assert Escape(key) == head + tail;
      forall i | 0 <= i < |head + tail| ensures !Bare(head + tail, i) {
        if i >= |head| {
          assert !Bare(tail, i - |head|);
        }
      }
    }
  }

  /** Unescaping the escaped form of any key returns the key. */
  lemma {:induction false} UnescapeEscape(key: string)
    ensures Unescape(Escape(key)) == key
  {
    if key != "" {
      var rest := key[1..];
      assert key == [key[0]] + rest;
      UnescapeEscape(rest);
      EscapeCons(key[0], rest);
      EscapedKey(rest);
      if key[0] == '=' {
        UnescapeHere(Escape(rest));
      } else {
        UnescapeSkips(key[0], Escape(rest));
      }
    }
  }
}
