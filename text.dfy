/** String helpers shared by both import scripts: Python's `str.strip()`,
    `str.split(sep)` and `str.replace(old, new)` on `seq<char>`, and the note
    cleaning both scripts apply to the `note` column. */
module Text {

  /** Python's `str.isspace()` set: the characters `strip()` with no argument removes. */
  predicate IsSpace(c: char)
  {
    ('\t' <= c <= '\r') || ('\U{1C}' <= c <= '\U{1F}') || c == ' ' ||
    c == '\U{85}' || c == '\U{A0}' || c == '\U{1680}' ||
    ('\U{2000}' <= c <= '\U{200A}') || c == '\U{2028}' || c == '\U{2029}' ||
    c == '\U{202F}' || c == '\U{205F}' || c == '\U{3000}'
  }

  predicate AllSpace(s: string)
  {
    forall k | 0 <= k < |s| :: IsSpace(s[k])
  }

  /** `p` occurs in `s` starting at index `k`. */
  predicate OccursAt(s: string, p: string, k: int)
  {
    0 <= k && k + |p| <= |s| && s[k..k + |p|] == p
  }

  /** Python's `p in s`. */
  predicate Contains(s: string, p: string)
  {
    exists k | 0 <= k <= |s| - |p| :: OccursAt(s, p, k)
  }

  // ---------------------------------------------------------------------------
  // strip

  /** `s.lstrip()`. */
  function TrimLeft(s: string): string
  {
    if s != [] && IsSpace(s[0]) then TrimLeft(s[1..]) else s
  }

  /** `s.rstrip()`. */
  function TrimRight(s: string): string
  {
    if s != [] && IsSpace(s[|s| - 1]) then TrimRight(s[..|s| - 1]) else s
  }

  /** `lstrip` drops the leading whitespace and nothing else. */
  lemma {:induction false} TrimLeftSlice(s: string)
    ensures var r := TrimLeft(s);
      |r| <= |s| && r == s[|s| - |r|..] && AllSpace(s[..|s| - |r|]) && (r == [] || !IsSpace(r[0]))
  {
    if s != [] && IsSpace(s[0]) {
      TrimLeftSlice(s[1..]);
      var r := TrimLeft(s);
      assert s[..|s| - |r|] == [s[0]] + s[1..][..|s| - 1 - |r|];
    }
  }

  /** `rstrip` drops the trailing whitespace and nothing else. */
  lemma {:induction false} TrimRightSlice(s: string)
    ensures var r := TrimRight(s);
      |r| <= |s| && r == s[..|r|] && AllSpace(s[|r|..]) && (r == [] || !IsSpace(r[|r| - 1]))
  {
    if s != [] && IsSpace(s[|s| - 1]) {
      TrimRightSlice(s[..|s| - 1]);
      var r := TrimRight(s);
      assert s[|r|..] == s[..|s| - 1][|r|..] + [s[|s| - 1]];
    }
  }

  /** `s.strip()`. */
  function Strip(s: string): string
  {
    TrimRight(TrimLeft(s))
  }

  /** What is left after stripping: a slice of `s` that neither starts nor ends
      with whitespace, all of `s` around it being whitespace. */
  lemma StripSlice(s: string)
    ensures var r := Strip(s);
      && (r == [] || (!IsSpace(r[0]) && !IsSpace(r[|r| - 1])))
      && exists i :: 0 <= i <= |s| - |r| && s[i..i + |r|] == r && AllSpace(s[..i]) && AllSpace(s[i + |r|..])
  {
    var t := TrimLeft(s);
    var r := TrimRight(t);
    TrimLeftSlice(s);
    TrimRightSlice(t);
    var i := |s| - |t|;
    assert s[i..i + |r|] == r;
    assert s[i + |r|..] == t[|r|..];
  }

  /** Stripping twice is the same as stripping once (`get_or_create_activity_id`
      strips names that the row loop has already stripped). */
  lemma StripIdempotent(s: string)
    ensures Strip(Strip(s)) == Strip(s)
  {
    var r := Strip(s);
    StripSlice(s);
    assert TrimLeft(r) == r;
    assert TrimRight(r) == r;
  }

  /** A string strips to the empty string exactly when it is all whitespace. */
  lemma StripEmptyIff(s: string)
    ensures Strip(s) == [] <==> AllSpace(s)
  {
    var r := Strip(s);
    StripSlice(s);
    var i :| 0 <= i <= |s| - |r| && s[i..i + |r|] == r && AllSpace(s[..i]) && AllSpace(s[i + |r|..]);
    if r == [] {
      forall k | 0 <= k < |s| ensures IsSpace(s[k]) {
        if k < i { assert s[..i][k] == s[k]; } else { assert s[i..][k - i] == s[k]; }
      }
    }
  }

  // ---------------------------------------------------------------------------
  // split and join

  /** `sep.join(ps)`. */
  function Join(ps: seq<string>, sep: string): string
  {
    if |ps| == 0 then []
    else if |ps| == 1 then ps[0]
    else ps[0] + sep + Join(ps[1..], sep)
  }

  /** `s.split(sep)` for a non-empty separator: cut `s` at every occurrence of
      `sep` found scanning left to right, occurrences not overlapping. */
  function Split(s: string, sep: string): (r: seq<string>)
    requires sep != []
    ensures |r| >= 1
    decreases |s|
  {
    if |s| < |sep| then [s]
    else if s[..|sep|] == sep then [[]] + Split(s[|sep|..], sep)
    else
      var rest := Split(s[1..], sep);
      [[s[0]] + rest[0]] + rest[1..]
  }

  /** Joining the pieces of a split with the separator gives back the string. */
  lemma {:induction false} SplitJoin(s: string, sep: string)
    requires sep != []
    ensures Join(Split(s, sep), sep) == s
    decreases |s|
  {
    if |s| < |sep| {
    } else if s[..|sep|] == sep {
      var rest := Split(s[|sep|..], sep);
      SplitJoin(s[|sep|..], sep);
      assert Split(s, sep) == [[]] + rest;
      assert ([[]] + rest)[1..] == rest;
      assert s == sep + s[|sep|..];
    } else {
      var rest := Split(s[1..], sep);
      SplitJoin(s[1..], sep);
      JoinConsHead(s[0], rest, sep);
      assert s == [s[0]] + s[1..];
    }
  }

  /** Prepending a character to the first piece prepends it to the join. */
  lemma JoinConsHead(c: char, ps: seq<string>, sep: string)
    requires |ps| >= 1
    ensures Join([[c] + ps[0]] + ps[1..], sep) == [c] + Join(ps, sep)
  {
    var qs := [[c] + ps[0]] + ps[1..];
    if |ps| > 1 {
      assert qs[1..] == ps[1..];
    }
  }

  /** The first piece of a split is a prefix of the string. */
  lemma {:induction false} SplitHeadPrefix(s: string, sep: string)
    requires sep != []
    ensures |Split(s, sep)[0]| <= |s|
    ensures forall k | 0 <= k < |Split(s, sep)[0]| :: Split(s, sep)[0][k] == s[k]
    decreases |s|
  {
    if |s| >= |sep| && s[..|sep|] != sep {
      var t := s[1..];
      SplitHeadPrefix(t, sep);
      var h := Split(t, sep)[0];
      var g := Split(s, sep)[0];
      assert g == [s[0]] + h;
      forall k | 0 <= k < |g| ensures g[k] == s[k] {
        if k > 0 { assert g[k] == h[k - 1] == t[k - 1]; }
      }
    }
  }

  /** No piece of a split contains the separator. */
  lemma {:induction false} SplitPiecesFree(s: string, sep: string)
    requires sep != []
    ensures forall i | 0 <= i < |Split(s, sep)| :: !Contains(Split(s, sep)[i], sep)
    decreases |s|
  {
    var ps := Split(s, sep);
    if |s| < |sep| {
      assert ps == [s];
    } else if s[..|sep|] == sep {
      SplitPiecesFree(s[|sep|..], sep);
      var rest := Split(s[|sep|..], sep);
      assert ps == [[]] + rest;
      forall i | 0 <= i < |ps| ensures !Contains(ps[i], sep) {
        if i > 0 { assert ps[i] == rest[i - 1]; }
      }
    } else {
      SplitPiecesFree(s[1..], sep);
      var rest := Split(s[1..], sep);
      var head := [s[0]] + rest[0];
      assert ps == [head] + rest[1..];
      SplitHeadPrefix(s[1..], sep);
      forall k | 0 <= k <= |head| - |sep| ensures !OccursAt(head, sep, k) {
        if k == 0 {
          assert |sep| <= |head|;
          assert head[..|sep|] == s[..|sep|] by {
            forall m | 0 <= m < |sep| ensures head[m] == s[m] {
              if m > 0 { assert head[m] == rest[0][m - 1] == s[1..][m - 1]; }
            }
          }
        } else {
          assert rest[0][k - 1..k - 1 + |sep|] == head[k..k + |sep|];
          assert !OccursAt(rest[0], sep, k - 1);
        }
      }
      forall i | 0 <= i < |ps| ensures !Contains(ps[i], sep) {
        if i > 0 { assert ps[i] == rest[i]; }
      }
    }
  }

  /** A string without the separator splits into itself alone. */
  lemma {:induction false} SplitWithoutSep(s: string, sep: string)
    requires sep != [] && !Contains(s, sep)
    ensures Split(s, sep) == [s]
    decreases |s|
  {
    if |s| < |sep| {
    } else if s[..|sep|] == sep {
      assert OccursAt(s, sep, 0);
    } else {
      if Contains(s[1..], sep) {
        var k :| 0 <= k <= |s| - 1 - |sep| && OccursAt(s[1..], sep, k);
        assert s[k + 1..k + 1 + |sep|] == s[1..][k..k + |sep|];
        assert OccursAt(s, sep, k + 1);
      }
      SplitWithoutSep(s[1..], sep);
      assert [s[0]] + s[1..] == s;
    }
  }

  /** Every piece of a whitespace-only string is whitespace-only. */
  lemma {:induction false} SplitAllSpace(s: string, sep: string)
    requires sep != [] && AllSpace(s)
    ensures forall i | 0 <= i < |Split(s, sep)| :: AllSpace(Split(s, sep)[i])
    decreases |s|
  {
    var ps := Split(s, sep);
    if |s| < |sep| {
      assert ps == [s];
    } else if s[..|sep|] == sep {
      var t := s[|sep|..];
      assert forall k | 0 <= k < |t| :: t[k] == s[k + |sep|];
      SplitAllSpace(t, sep);
      assert ps == [[]] + Split(t, sep);
      forall i | 0 <= i < |ps| ensures AllSpace(ps[i]) {
        if i > 0 { assert ps[i] == Split(t, sep)[i - 1]; }
      }
    } else {
      var t := s[1..];
      assert forall k | 0 <= k < |t| :: t[k] == s[k + 1];
      SplitAllSpace(t, sep);
      var rest := Split(t, sep);
      var head := [s[0]] + rest[0];
      assert ps == [head] + rest[1..];
      assert AllSpace(rest[0]);
      assert forall k | 1 <= k < |head| :: head[k] == rest[0][k - 1];
      forall i | 0 <= i < |ps| ensures AllSpace(ps[i]) {
        if i > 0 { assert ps[i] == rest[i]; }
      }
    }
  }

  /** `[a.strip() for a in ps]`. */
  function StripAll(ps: seq<string>): seq<string>
    decreases |ps|
  {
    if ps == [] then [] else StripAll(ps[..|ps| - 1]) + [Strip(ps[|ps| - 1])]
  }

  lemma {:induction false} StripAllAt(ps: seq<string>)
    ensures |StripAll(ps)| == |ps|
    ensures forall i | 0 <= i < |ps| :: StripAll(ps)[i] == Strip(ps[i])
    decreases |ps|
  {
    if ps != [] {
      StripAllAt(ps[..|ps| - 1]);
    }
  }

  /** `[a.strip() for a in s.split(sep)]`. */
  function SplitStrip(s: string, sep: string): seq<string>
    requires sep != []
  {
    StripAll(Split(s, sep))
  }

  // ---------------------------------------------------------------------------
  // replace and note cleaning

  /** `s.replace(pat, rep)` for a non-empty pattern: every occurrence of `pat`
      found scanning left to right, not overlapping, becomes `rep`. */
  function Replace(s: string, pat: string, rep: string): string
    requires pat != []
    decreases |s|
  {
    if |s| < |pat| then s
    else if s[..|pat|] == pat then rep + Replace(s[|pat|..], pat, rep)
    else [s[0]] + Replace(s[1..], pat, rep)
  }

  /** Replacing is splitting at the pattern and joining with the replacement. */
  lemma {:induction false} ReplaceIsSplitJoin(s: string, pat: string, rep: string)
    requires pat != []
    ensures Replace(s, pat, rep) == Join(Split(s, pat), rep)
    decreases |s|
  {
    if |s| < |pat| {
    } else if s[..|pat|] == pat {
      var rest := Split(s[|pat|..], pat);
      ReplaceIsSplitJoin(s[|pat|..], pat, rep);
      assert Split(s, pat) == [[]] + rest;
      assert ([[]] + rest)[1..] == rest;
    } else {
      var rest := Split(s[1..], pat);
      ReplaceIsSplitJoin(s[1..], pat, rep);
      JoinConsHead(s[0], rest, rep);
    }
  }

  /** A string that does not contain the pattern is left as it is. */
  lemma ReplaceWithoutPattern(s: string, pat: string, rep: string)
    requires pat != [] && !Contains(s, pat)
    ensures Replace(s, pat, rep) == s
  {
    ReplaceIsSplitJoin(s, pat, rep);
    SplitWithoutSep(s, pat);
  }

  /** Up to the first character of the replacement, the output copies the input. */
  lemma {:induction false} ReplacePrefix(t: string, pat: string, rep: string, m: nat)
    requires pat != [] && rep != []
    requires m <= |Replace(t, pat, rep)|
    ensures (forall i | 0 <= i < m :: Replace(t, pat, rep)[i] !in rep) ==>
              m <= |t| && Replace(t, pat, rep)[..m] == t[..m]
    decreases |t|
  {
    if m == 0 || |t| < |pat| {
    } else if t[..|pat|] == pat {
      assert Replace(t, pat, rep)[0] == rep[0] && rep[0] in rep;
    } else {
      var x := Replace(t[1..], pat, rep);
      assert Replace(t, pat, rep) == [t[0]] + x;
      ReplacePrefix(t[1..], pat, rep, m - 1);
      if forall i | 0 <= i < m :: Replace(t, pat, rep)[i] !in rep {
        forall i | 0 <= i < m - 1 ensures x[i] !in rep {
          assert x[i] == Replace(t, pat, rep)[i + 1];
        }
        assert t[..m] == [t[0]] + t[1..][..m - 1];
      }
    }
  }

  /** When the replacement shares no character with the pattern, no occurrence
      of the pattern is left in the output. */
  lemma {:induction false} ReplaceRemovesAll(s: string, pat: string, rep: string)
    requires pat != [] && rep != []
    requires forall c | c in rep :: c !in pat
    ensures !Contains(Replace(s, pat, rep), pat)
    decreases |s|
  {
    if |s| < |pat| {
    } else if s[..|pat|] == pat {
      ReplaceRemovesAll(s[|pat|..], pat, rep);
      NoOccurrenceAfterReplacement(rep, Replace(s[|pat|..], pat, rep), pat);
    } else {
      ReplaceRemovesAll(s[1..], pat, rep);
      NoOccurrenceAfterKept(s, pat, rep);
    }
  }

  /** A match replaced: a pattern occurrence in `rep + x` would have to start
      inside `rep`, impossible when they share no character, or inside `x`. */
  lemma NoOccurrenceAfterReplacement(rep: string, x: string, pat: string)
    requires pat != [] && (forall c | c in rep :: c !in pat) && !Contains(x, pat)
    ensures !Contains(rep + x, pat)
  {
    var r := rep + x;
    forall k | 0 <= k <= |r| - |pat| ensures !OccursAt(r, pat, k) {
      if k < |rep| {
        assert rep[k] in rep && r[k] == rep[k];
        assert r[k..k + |pat|][0] != pat[0];
      } else {
        assert x[k - |rep|..k - |rep| + |pat|] == r[k..k + |pat|];
        assert !OccursAt(x, pat, k - |rep|);
      }
    }
  }

  /** A character kept because no match starts at it: an occurrence at the
      front of the output would mean a match at the front of `s`. */
  lemma NoOccurrenceAfterKept(s: string, pat: string, rep: string)
    requires pat != [] && rep != [] && (forall c | c in rep :: c !in pat)
    requires |pat| <= |s| && s[..|pat|] != pat
    requires !Contains(Replace(s[1..], pat, rep), pat)
    ensures !Contains(Replace(s, pat, rep), pat)
  {
    var r := Replace(s, pat, rep);
    var x := Replace(s[1..], pat, rep);
    assert r == [s[0]] + x;
    NoOccurrenceAtFront(s, pat, rep);
    forall k | 1 <= k <= |r| - |pat| ensures !OccursAt(r, pat, k) {
      assert x[k - 1..k - 1 + |pat|] == r[k..k + |pat|];
      assert !OccursAt(x, pat, k - 1);
    }
    assert forall k | 0 <= k <= |r| - |pat| :: !OccursAt(r, pat, k);
  }

  /** The front of the output when no match starts at the front of `s`. */
  lemma NoOccurrenceAtFront(s: string, pat: string, rep: string)
    requires pat != [] && rep != [] && (forall c | c in rep :: c !in pat)
    requires |pat| <= |s| && s[..|pat|] != pat
    ensures !OccursAt(Replace(s, pat, rep), pat, 0)
  {
    var r := Replace(s, pat, rep);
    var x := Replace(s[1..], pat, rep);
    assert r == [s[0]] + x;
    var m := |pat| - 1;
    if |pat| <= |r| {
      ReplacePrefix(s[1..], pat, rep, m);
      if x[..m] == pat[1..] {
        forall i | 0 <= i < m ensures x[i] !in rep {
          assert x[i] == pat[i + 1];
        }
        assert s[..|pat|] == [s[0]] + s[1..][..m];
        assert r[..|pat|] == [s[0]] + x[..m];
      } else {
        assert r[1..|pat|] == x[..m];
      }
    }
  }

  const LineBreakTag: string := "<br><br>"
  const BlankLine: string := "\n\n"

  /** `note.replace('<br><br>', '\n\n')`, applied by both scripts to the note column. */
  function CleanNote(note: string): string
  {
    Replace(note, LineBreakTag, BlankLine)
  }

  /** The cleaned note is the original cut at each `<br><br>` and rejoined with a blank line. */
  lemma CleanNoteCutsAtTags(note: string)
    ensures Join(Split(note, LineBreakTag), LineBreakTag) == note
    ensures CleanNote(note) == Join(Split(note, LineBreakTag), BlankLine)
    ensures forall i | 0 <= i < |Split(note, LineBreakTag)| :: !Contains(Split(note, LineBreakTag)[i], LineBreakTag)
  {
    SplitJoin(note, LineBreakTag);
    ReplaceIsSplitJoin(note, LineBreakTag, BlankLine);
    SplitPiecesFree(note, LineBreakTag);
  }

  /** A note without `<br><br>` is stored unchanged. */
  lemma CleanNoteWithoutTags(note: string)
    requires !Contains(note, LineBreakTag)
    ensures CleanNote(note) == note
  {
    ReplaceWithoutPattern(note, LineBreakTag, BlankLine);
  }

  /** No `<br><br>` survives the cleaning, so cleaning twice changes nothing more. */
  lemma CleanNoteIdempotent(note: string)
    ensures !Contains(CleanNote(note), LineBreakTag)
    ensures CleanNote(CleanNote(note)) == CleanNote(note)
  {
    ReplaceRemovesAll(note, LineBreakTag, BlankLine);
    CleanNoteWithoutTags(CleanNote(note));
  }
}
