/**
 * The parts of java.lang.String and java.io.BufferedReader that the species
 * store relies on: `trim`, `equalsIgnoreCase` (on ASCII letters) and the way
 * `readLine` splits written text into lines.
 */
module Text {

  /** `String.trim` strips every leading and trailing char whose code is at most U+0020. */
  predicate IsBlank(s: string) {
    forall k :: 0 <= k < |s| ==> s[k] <= ' '
  }

  function TrimStart(s: string): string
    decreases |s|
  {
    if s != [] && s[0] <= ' ' then TrimStart(s[1..]) else s
  }

  function TrimEnd(s: string): string
    decreases |s|
  {
    if s != [] && s[|s| - 1] <= ' ' then TrimEnd(s[..|s| - 1]) else s
  }

  /** Java's `String.trim`. */
  function Trim(s: string): string {
    TrimEnd(TrimStart(s))
  }

  /** `TrimStart` drops a blank prefix and stops at the first char above U+0020. */
  lemma {:induction false} TrimStartFacts(s: string)
    ensures |TrimStart(s)| <= |s| && TrimStart(s) == s[|s| - |TrimStart(s)|..]
    ensures forall k :: 0 <= k < |s| - |TrimStart(s)| ==> s[k] <= ' '
    ensures TrimStart(s) != [] ==> TrimStart(s)[0] > ' '
    decreases |s|
  {
    if s != [] && s[0] <= ' ' {
      TrimStartFacts(s[1..]);
    }
  }

  /** `TrimEnd` drops a blank suffix and stops at the last char above U+0020. */
  lemma {:induction false} TrimEndFacts(s: string)
    ensures |TrimEnd(s)| <= |s| && TrimEnd(s) == s[..|TrimEnd(s)|]
    ensures forall k :: |TrimEnd(s)| <= k < |s| ==> s[k] <= ' '
    ensures TrimEnd(s) != [] ==> TrimEnd(s)[|TrimEnd(s)| - 1] > ' '
    decreases |s|
  {
    if s != [] && s[|s| - 1] <= ' ' {
      TrimEndFacts(s[..|s| - 1]);
    }
  }

  /**
   * What `trim` promises: the result is empty exactly when every char is
   * at most U+0020, and otherwise begins and ends with a char above it.
   */
  lemma TrimFacts(s: string)
    ensures Trim(s) == [] <==> IsBlank(s)
    ensures Trim(s) != [] ==> Trim(s)[0] > ' ' && Trim(s)[|Trim(s)| - 1] > ' '
  {
    var t := TrimStart(s);
    TrimStartFacts(s);
    TrimEndFacts(t);
    if Trim(s) != [] {
      assert Trim(s) == t[..|Trim(s)|];
    }
  }

  /**
   * What `trim` returns is a slice of its argument: the chars before it and
   * after it are all at most U+0020. It is never longer than its argument and
   * equals it when as long.
   */
  lemma TrimIsSlice(s: string)
    ensures |Trim(s)| <= |s| && (|Trim(s)| == |s| ==> Trim(s) == s)
    ensures |TrimStart(s)| <= |s| && var a := |s| - |TrimStart(s)|;
      a + |Trim(s)| <= |s| && Trim(s) == s[a..a + |Trim(s)|] &&
      IsBlank(s[..a]) && IsBlank(s[a + |Trim(s)|..])
  {
    var t := TrimStart(s);
    var r := TrimEnd(t);
    TrimStartFacts(s);
    TrimEndFacts(t);
    var a := |s| - |t|;
    assert r == s[a..][..|r|] == s[a..a + |r|];
    var rest := s[a + |r|..];
    forall k | 0 <= k < |rest| ensures rest[k] <= ' ' {
      assert rest[k] == t[|r| + k];
    }
  }

  /** A string that begins and ends with a printable char is its own trim. */
  lemma TrimOfTrimmed(s: string)
    requires s == [] || (s[0] > ' ' && s[|s| - 1] > ' ')
    ensures Trim(s) == s
  {
  }

  /** ASCII case folding, the model of `Character.toLowerCase`. */
  function ToLowerAscii(c: char): char {
    if 'A' <= c <= 'Z' then (c as int + 32) as char else c
  }

  /** `String.equalsIgnoreCase`, restricted to ASCII case folding. */
  predicate EqualsIgnoreCase(a: string, b: string) {
    |a| == |b| && forall k :: 0 <= k < |a| ==> ToLowerAscii(a[k]) == ToLowerAscii(b[k])
  }

  predicate NoBreaks(s: string) {
    forall k :: 0 <= k < |s| ==> s[k] != '\n' && s[k] != '\r'
  }

  /**
   * The lines `BufferedReader.readLine` returns for the text `t` followed by
   * the "\n" that `BufferedWriter.newLine` writes: "\n", "\r" and "\r\n" each
   * end a line.
   */
  function LinesOf(t: string): seq<string> {
    Pieces(t, "")
  }

  /** `cur` is the part of the current line read so far. */
  function Pieces(t: string, cur: string): (r: seq<string>)
    ensures |r| >= 1
    decreases |t|
  {
    if t == [] then [cur]
    else if t[0] == '\n' then [cur] + Pieces(t[1..], "")
    else if t[0] == '\r' then
      if |t| == 1 then [cur]
      else if t[1] == '\n' then [cur] + Pieces(t[2..], "")
      else [cur] + Pieces(t[1..], "")
    else Pieces(t[1..], cur + [t[0]])
  }

  lemma {:induction false} PiecesOfUnbroken(t: string, cur: string)
    requires NoBreaks(t)
    ensures Pieces(t, cur) == [cur + t]
    decreases |t|
  {
    if t != [] {
      assert t[0] != '\n' && t[0] != '\r';
      PiecesOfUnbroken(t[1..], cur + [t[0]]);
      assert cur + [t[0]] + t[1..] == cur + t;
    } else {
      assert cur + t == cur;
    }
  }

  /** A line without line breaks is read back as exactly one line. */
  lemma LinesOfUnbroken(t: string)
    requires NoBreaks(t)
    ensures LinesOf(t) == [t]
  {
    PiecesOfUnbroken(t, "");
    assert "" + t == t;
  }

  lemma {:induction false} PiecesAreUnbroken(t: string, cur: string)
    requires NoBreaks(cur)
    ensures forall k :: 0 <= k < |Pieces(t, cur)| ==> NoBreaks(Pieces(t, cur)[k])
    decreases |t|
  {
    if t == [] {
    } else if t[0] == '\n' {
      PiecesAreUnbroken(t[1..], "");
    } else if t[0] == '\r' {
      if |t| == 1 {
      } else if t[1] == '\n' {
        PiecesAreUnbroken(t[2..], "");
      } else {
        PiecesAreUnbroken(t[1..], "");
      }
    } else {
      PiecesAreUnbroken(t[1..], cur + [t[0]]);
    }
  }

  /** Whatever is written, no line read back contains a line break. */
  lemma LinesOfAreUnbroken(t: string)
    ensures |LinesOf(t)| >= 1
    ensures forall k :: 0 <= k < |LinesOf(t)| ==> NoBreaks(LinesOf(t)[k])
  {
    PiecesAreUnbroken(t, "");
  }
}
