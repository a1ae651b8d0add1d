/** The string operations the coordinate parser relies on: splitting with
    `re.split('[^\d\w.-]+', text)` and the indexing `token[-1]`,
    `token[0:-1]` and `token.strip()` applied to the pieces.

    Word characters are taken to be the ASCII letters, digits and `_`;
    every other character (blank, comma, degree sign, quote, `+`, ...) is a
    separator. */
module PyText {

  /** A character of the class `[\d\w.-]`: one that can occur in a token. */
  predicate IsTokenChar(c: char) {
    || ('0' <= c <= '9')
    || ('a' <= c <= 'z')
    || ('A' <= c <= 'Z')
    || c == '_' || c == '.' || c == '-'
  }

  /** A string made only of token characters. */
  predicate IsTokenText(t: string) {
    forall i :: 0 <= i < |t| ==> IsTokenChar(t[i])
  }

  /** What `re.split` can return for a pattern that matches one or more
      separators: at least one piece, every piece free of separators, and
      only the first and the last piece possibly empty (they are empty when
      the text starts, respectively ends, with a separator). */
  predicate IsSplitShape(ts: seq<string>) {
    && |ts| >= 1
    && (forall i :: 0 <= i < |ts| ==> IsTokenText(ts[i]))
    && (forall i :: 0 < i < |ts| - 1 ==> ts[i] != "")
  }

  /** The characters of `s` that are token characters, in order. */
  function TokenChars(s: string): string {
    if s == [] then []
    else if IsTokenChar(s[0]) then [s[0]] + TokenChars(s[1..])
    else TokenChars(s[1..])
  }

  /** The pieces laid end to end. */
  function Concat(ts: seq<string>): string {
    if ts == [] then [] else ts[0] + Concat(ts[1..])
  }

  /** `re.split('[^\d\w.-]+', s)`: cut `s` at every maximal run of
      separators. The run itself is dropped; a run at the start or at the
      end leaves an empty first or last piece, and the empty text gives one
      empty piece. */
  function Split(s: string): (ts: seq<string>)
    ensures IsSplitShape(ts)
    ensures |ts| == 1 <==> IsTokenText(s)
    ensures |ts| == 1 ==> ts[0] == s
    ensures ts[0] == "" <==> (s == "" || !IsTokenChar(s[0]))
    decreases |s|
  {
    if s == [] then [""]
    else
      var rest := Split(s[1..]);
      if IsTokenChar(s[0]) then
        var ts := [[s[0]] + rest[0]] + rest[1..];
        assert IsSplitShape(ts) by { GlueFirst(s[0], rest); }
        assert IsTokenText(s) <==> IsTokenText(s[1..]) by {
          assert forall i :: 0 < i < |s| ==> s[i] == s[1..][i - 1];
        }
        ts
      else if |s| > 1 && !IsTokenChar(s[1]) then
        rest
      else
        assert IsSplitShape([""] + rest) by { PrependEmpty(rest); }
        [""] + rest
  }

  /** Gluing a token character to the first piece keeps the split shape. */
  lemma GlueFirst(c: char, rest: seq<string>)
    requires IsTokenChar(c) && IsSplitShape(rest)
    ensures IsSplitShape([[c] + rest[0]] + rest[1..])
  {
    var ts := [[c] + rest[0]] + rest[1..];
    forall i | 0 <= i < |ts| ensures IsTokenText(ts[i]) {
      if i > 0 { assert ts[i] == rest[i]; }
    }
    forall i | 0 < i < |ts| - 1 ensures ts[i] != "" {
      assert ts[i] == rest[i];
    }
  }

  /** A new empty first piece in front of pieces whose first piece is
      non-empty (or which are just one empty piece) keeps the split shape. */
  lemma PrependEmpty(rest: seq<string>)
    requires IsSplitShape(rest)
    requires |rest| == 1 || rest[0] != ""
    ensures IsSplitShape([""] + rest)
  {
    var ts := [""] + rest;
    forall i | 0 <= i < |ts| ensures IsTokenText(ts[i]) {
      if i > 0 { assert ts[i] == rest[i - 1]; }
    }
    forall i | 0 < i < |ts| - 1 ensures ts[i] != "" {
      assert ts[i] == rest[i - 1];
    }
  }

  /** The last piece is empty exactly when the text is empty or ends with
      a separator. */
  lemma {:induction false} SplitLast(s: string)
    ensures var ts := Split(s);
      ts[|ts| - 1] == "" <==> (s == "" || !IsTokenChar(s[|s| - 1]))
    decreases |s|
  {
    if s != [] {
      SplitLast(s[1..]);
      var rest := Split(s[1..]);
      if |rest| > 1 {
        assert s[1..] != [] && s[|s| - 1] == s[1..][|s[1..]| - 1];
      } else if IsTokenChar(s[0]) {
        assert IsTokenText(s[1..]);
        assert |s| == 1 || s[|s| - 1] == s[1..][|s| - 2];
      }
    }
  }

  /** Splitting drops the separators and keeps every other character, in
      order. */
  lemma {:induction false} SplitKeepsTokenChars(s: string)
    ensures Concat(Split(s)) == TokenChars(s)
    decreases |s|
  {
    if s != [] {
      SplitKeepsTokenChars(s[1..]);
      var rest := Split(s[1..]);
      assert Concat(rest) == rest[0] + Concat(rest[1..]);
      if IsTokenChar(s[0]) {
        var ts := [[s[0]] + rest[0]] + rest[1..];
        assert ts[1..] == rest[1..];
        assert Concat(ts) == ([s[0]] + rest[0]) + Concat(rest[1..]);
      } else if !(|s| > 1 && !IsTokenChar(s[1])) {
        assert ([""] + rest)[1..] == rest;
      }
    }
  }

  /** The pieces joined with one blank between neighbours: the text a user
      types when separating the fields with single spaces. */
  function Join(ts: seq<string>): string {
    if |ts| <= 1 then (if ts == [] then "" else ts[0])
    else ts[0] + " " + Join(ts[1..])
  }

  /** Joining two, three or four pieces. */
  lemma JoinSmall(a: string, b: string, c: string, d: string)
    ensures Join([a, b]) == a + " " + b
    ensures Join([a, b, c]) == a + " " + b + " " + c
    ensures Join([a, b, c, d]) == a + " " + b + " " + c + " " + d
  {
    JoinTwo(a, b);
    JoinTwo(b, c);
    JoinTwo(c, d);
    assert [a, b, c][1..] == [b, c];
    assert Join([a, b, c]) == a + " " + (b + " " + c);
    assert [b, c, d][1..] == [c, d];
    assert Join([b, c, d]) == b + " " + (c + " " + d);
    assert [a, b, c, d][1..] == [b, c, d];
    assert Join([a, b, c, d]) == a + " " + (b + " " + (c + " " + d));
  }

  lemma JoinTwo(a: string, b: string)
    ensures Join([a, b]) == a + " " + b
  {
    assert [a, b][1..] == [b];
  }

  /** Splitting the blank-joined pieces gives the pieces back, for every
      list of pieces that `re.split` could have produced. */
  lemma {:induction false} SplitJoin(ts: seq<string>)
    requires IsSplitShape(ts)
    ensures Split(Join(ts)) == ts
    decreases |ts|
  {
    if |ts| == 1 {
      SplitTokenText(ts[0]);
    } else {
      var u := Join(ts[1..]);
      SplitJoin(ts[1..]);
      assert u == "" || IsTokenChar(u[0]) by {
        JoinStartsWithFirst(ts[1..]);
        if |ts| > 2 { assert ts[1] != ""; }
      }
      SplitBlank(u);
      var sb := Split(" " + u);
      assert sb[0] == "" && sb[1..] == ts[1..];
      SplitPrefix(ts[0], " " + u);
      assert Join(ts) == ts[0] + (" " + u);
      assert ts[0] + sb[0] == ts[0];
      assert ts == [ts[0]] + ts[1..];
    }
  }

  /** A text of token characters alone is one piece. */
  lemma SplitTokenText(t: string)
    requires IsTokenText(t)
    ensures Split(t) == [t]
  {
  }

  /** The joined text begins with the first piece. */
  lemma JoinStartsWithFirst(ts: seq<string>)
    requires |ts| >= 1
    ensures |Join(ts)| >= |ts[0]| && Join(ts)[..|ts[0]|] == ts[0]
    ensures ts[0] == "" && |ts| > 1 ==> Join(ts)[0] == ' '
  {
  }

  /** One blank in front of a text that starts with a token character (or
      is empty) adds an empty first piece. */
  lemma SplitBlank(u: string)
    requires u == "" || IsTokenChar(u[0])
    ensures Split(" " + u) == [""] + Split(u)
  {
    assert (" " + u)[1..] == u;
  }

  /** Token characters in front of a text are glued to its first piece. */
  lemma {:induction false} SplitPrefix(t: string, u: string)
    requires IsTokenText(t)
    ensures Split(t + u) == [t + Split(u)[0]] + Split(u)[1..]
    decreases |t|
  {
    var su := Split(u);
    if t == [] {
      assert t + u == u && t + su[0] == su[0];
      assert su == [su[0]] + su[1..];
    } else {
      var tail := t[1..] + u;
      var rest := Split(tail);
      assert rest[0] == t[1..] + su[0] && rest[1..] == su[1..] by {
        SplitPrefix(t[1..], u);
      }
      assert Split(t + u) == [[t[0]] + rest[0]] + rest[1..] by {
        assert t + u == [t[0]] + tail;
        SplitCons(t[0], tail);
      }
      assert [t[0]] + (t[1..] + su[0]) == t + su[0];
    }
  }

  /** One token character in front of a text joins its first piece. */
  lemma SplitCons(c: char, u: string)
    requires IsTokenChar(c)
    ensures Split([c] + u) == [[c] + Split(u)[0]] + Split(u)[1..]
  {
    assert ([c] + u)[1..] == u;
  }

  /** A non-empty run of separators. */
  predicate IsSeparatorRun(r: string) {
    r != [] && forall i :: 0 <= i < |r| ==> !IsTokenChar(r[i])
  }

  /** The pieces with the separator runs put back between neighbours:
      `ts[0] + seps[0] + ts[1] + ... + ts[|ts| - 1]`. */
  function Interleave(ts: seq<string>, seps: seq<string>): string
    requires |ts| >= 1 && |seps| == |ts| - 1
    decreases |ts|
  {
    if |ts| == 1 then ts[0] else ts[0] + seps[0] + Interleave(ts[1..], seps[1..])
  }

  /** `seps` are the separator runs between the pieces `ts` of `s`. */
  predicate IsCutting(ts: seq<string>, seps: seq<string>, s: string) {
    && |ts| >= 1 && |seps| == |ts| - 1
    && (forall i :: 0 <= i < |seps| ==> IsSeparatorRun(seps[i]))
    && Interleave(ts, seps) == s
  }

  /** `re.split` cuts the text at separator runs: between every two
      neighbouring pieces there is a non-empty run of separators, and the
      pieces with those runs put back are the text. With `IsSplitShape`
      (no piece holds a separator) the runs are maximal. */
  lemma {:induction false} SplitCutsAtRuns(s: string)
    ensures exists seps :: IsCutting(Split(s), seps, s)
    decreases |s|
  {
    if s == [] {
      assert IsCutting(Split(s), [], s);
    } else {
      var c, tail := s[0], s[1..];
      assert s == [c] + tail;
      var rest := Split(tail);
      SplitCutsAtRuns(tail);
      var seps' :| IsCutting(rest, seps', tail);
      if IsTokenChar(c) {
        assert Split(s) == [[c] + rest[0]] + rest[1..];
        CutGlue(c, rest, seps', tail);
        assert IsCutting(Split(s), seps', s);
      } else if |s| > 1 && !IsTokenChar(s[1]) {
        assert Split(s) == rest;
        assert rest[0] == "" && |rest| > 1 by {
          assert !IsTokenChar(tail[0]);
        }
        CutWiden(c, rest, seps', tail);
        assert IsCutting(Split(s), [[c] + seps'[0]] + seps'[1..], s);
      } else {
        assert Split(s) == [""] + rest;
        CutPrepend(c, rest, seps', tail);
        assert IsCutting(Split(s), [[c]] + seps', s);
      }
    }
  }

  /** A token character in front of the text glues to the first piece. */
  lemma CutGlue(c: char, ts: seq<string>, seps: seq<string>, s: string)
    requires IsCutting(ts, seps, s)
    ensures IsCutting([[c] + ts[0]] + ts[1..], seps, [c] + s)
  {
    var us := [[c] + ts[0]] + ts[1..];
    if |ts| > 1 {
      assert us[1..] == ts[1..];
      var r := Interleave(ts[1..], seps[1..]);
      assert ([c] + ts[0]) + seps[0] + r == [c] + (ts[0] + seps[0] + r);
    }
  }

  /** A separator in front of a text whose first piece is empty joins the
      first separator run. */
  lemma CutWiden(c: char, ts: seq<string>, seps: seq<string>, s: string)
    requires !IsTokenChar(c) && IsCutting(ts, seps, s) && |ts| >= 2 && ts[0] == ""
    ensures IsCutting(ts, [[c] + seps[0]] + seps[1..], [c] + s)
  {
    var wider := [[c] + seps[0]] + seps[1..];
    assert wider[1..] == seps[1..];
    assert IsSeparatorRun(wider[0]) by {
      assert IsSeparatorRun(seps[0]);
      forall i | 0 <= i < |wider[0]| ensures !IsTokenChar(wider[0][i]) {
        if i > 0 { assert wider[0][i] == seps[0][i - 1]; }
      }
    }
    assert forall i :: 0 < i < |wider| ==> wider[i] == seps[i];
    var r := Interleave(ts[1..], seps[1..]);
    assert "" + ([c] + seps[0]) + r == [c] + ("" + seps[0] + r);
  }

  /** A separator in front of a text whose first piece is a token starts a
      new, empty first piece. */
  lemma CutPrepend(c: char, ts: seq<string>, seps: seq<string>, s: string)
    requires !IsTokenChar(c) && IsCutting(ts, seps, s)
    ensures IsCutting([""] + ts, [[c]] + seps, [c] + s)
  {
    var us, wider := [""] + ts, [[c]] + seps;
    assert us[1..] == ts && wider[1..] == seps;
    assert forall i :: 0 < i < |wider| ==> wider[i] == seps[i - 1];
    assert Interleave(us, wider) == "" + [c] + s;
  }
}
