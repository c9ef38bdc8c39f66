/**
 * The mesh text format: one directive per line, `v x y z` for a vertex and
 * `t a b c d` for a tetrahedron's vertex indices, with `#` comments and
 * free whitespace. Number parsing is a parameter (`parseFloat`,
 * `parseInt`), and so is the value a missing vertex coordinate reads as.
 */
module Parser {
  import opened LinAlg
  import opened MeshOps

  // ---------------------------------------------------------------------------
  // Characters and splitting

  /** The whitespace class of JavaScript regular expressions and of `trim`. */
  predicate IsSpace(c: char) {
    c == ' ' || c == '\t' || c == '\n' || c == '\r' || c == '\U{B}' || c == '\U{C}'
    || c == '\U{A0}' || c == '\U{1680}' || ('\U{2000}' <= c <= '\U{200A}')
    || c == '\U{2028}' || c == '\U{2029}' || c == '\U{202F}' || c == '\U{205F}'
    || c == '\U{3000}' || c == '\U{FEFF}'
  }

  /**
   * Splitting at every `sep`, as JavaScript's `split` does: the empty text
   * gives one empty piece, and adjacent separators give empty pieces.
   */
  function Split(s: string, sep: char): (r: seq<string>)
    ensures |r| >= 1
    ensures forall k :: 0 <= k < |r| ==> sep !in r[k]
  {
    if |s| == 0 then [""]
    else
      var rest := Split(s[1..], sep);
      if s[0] == sep then [""] + rest else [[s[0]] + rest[0]] + rest[1..]
  }

  /** The pieces joined back with `sep` between them. */
  function Join(pieces: seq<string>, sep: char): string
    requires |pieces| >= 1
  {
    if |pieces| == 1 then pieces[0] else pieces[0] + [sep] + Join(pieces[1..], sep)
  }

  /** Splitting and joining again gives the text back. */
  lemma {:induction false} JoinSplit(s: string, sep: char)
    ensures Join(Split(s, sep), sep) == s
  {
    if |s| > 0 {
      var rest := Split(s[1..], sep);
      JoinSplit(s[1..], sep);
      if s[0] == sep {
        assert Split(s, sep)[1..] == rest;
      } else {
        var r := Split(s, sep);
        if |rest| == 1 {
          assert r == [[s[0]] + rest[0]];
        } else {
          assert r[1..] == rest[1..];
          assert Join(r, sep) == [s[0]] + rest[0] + [sep] + Join(rest[1..], sep);
        }
      }
    }
  }

  /** Joining pieces free of `sep` and splitting again gives the pieces back. */
  lemma {:induction false} SplitJoin(pieces: seq<string>, sep: char)
    requires |pieces| >= 1
    requires forall k :: 0 <= k < |pieces| ==> sep !in pieces[k]
    ensures Split(Join(pieces, sep), sep) == pieces
    decreases |pieces|, |pieces[0]|
  {
    var p := pieces[0];
    if |p| == 0 {
      if |pieces| > 1 {
        SplitJoin(pieces[1..], sep);
        assert Join(pieces, sep) == [sep] + Join(pieces[1..], sep);
        assert ([sep] + Join(pieces[1..], sep))[1..] == Join(pieces[1..], sep);
      }
    } else {
      var shorter := [p[1..]] + pieces[1..];
      assert shorter[1..] == pieces[1..];
      SplitJoin(shorter, sep);
      if |pieces| == 1 {
        assert Join(pieces, sep)[1..] == Join(shorter, sep);
      } else {
        assert Join(pieces, sep) == [p[0]] + Join(shorter, sep);
      }
      assert Join(pieces, sep)[1..] == Join(shorter, sep);
      assert [p[0]] + p[1..] == p;
      assert [[p[0]] + p[1..]] + pieces[1..] == pieces;
    }
  }

  // ---------------------------------------------------------------------------
  // Facts about sequences, kept apart from the recursive text functions

  lemma ConsParts<T>(a: seq<T>, b: seq<T>)
    requires |a| > 0
    ensures (a + b)[0] == a[0] && (a + b)[1..] == a[1..] + b
  {
  }

  lemma HeadTail<T>(a: seq<T>)
    requires |a| > 0
    ensures [a[0]] + a[1..] == a
  {
  }

  lemma ConsAssoc<T>(c: T, x: seq<T>, y: seq<T>)
    ensures [c] + (x + y) == ([c] + x) + y
  {
  }

  lemma SplitAt<T>(s: seq<T>, p: nat)
    requires p <= |s|
    ensures s == s[..p] + s[p..]
  {
  }

  lemma EmptyLeft<T>(a: seq<T>, b: seq<T>)
    requires |a| == 0
    ensures a + b == b
  {
  }

  // ---------------------------------------------------------------------------
  // Cleaning a line

  /** The text after its leading run of whitespace (`trimStart`). */
  function DropSpaces(s: string): (r: string)
    ensures |r| <= |s| && r == s[|s| - |r|..]
    ensures |r| > 0 ==> !IsSpace(r[0])
    ensures forall i :: 0 <= i < |s| - |r| ==> IsSpace(s[i])
  {
    if |s| > 0 && IsSpace(s[0]) then DropSpaces(s[1..]) else s
  }

  /** The text before its trailing run of whitespace (`trimEnd`). */
  function DropTrailing(s: string): (r: string)
    ensures |r| <= |s| && r == s[..|r|]
    ensures |r| > 0 ==> !IsSpace(r[|r| - 1])
    ensures forall i :: |r| <= i < |s| ==> IsSpace(s[i])
  {
    if |s| > 0 && IsSpace(s[|s| - 1]) then DropTrailing(s[..|s| - 1]) else s
  }

  /** Whitespace removed from both ends. */
  function Trim(s: string): string {
    DropTrailing(DropSpaces(s))
  }

  /** No whitespace other than single spaces. */
  predicate Collapsed(r: string) {
    && (forall i :: 0 <= i < |r| && IsSpace(r[i]) ==> r[i] == ' ')
    && (forall i :: 0 <= i < |r| - 1 ==> !(r[i] == ' ' && r[i + 1] == ' '))
  }

  /** A character in front of a collapsed text keeps it collapsed unless two spaces meet. */
  lemma ConsCollapsed(c: char, rest: string)
    requires Collapsed(rest)
    requires IsSpace(c) ==> c == ' ' && (|rest| > 0 ==> !IsSpace(rest[0]))
    ensures Collapsed([c] + rest)
  {
    var r := [c] + rest;
    assert forall i :: 1 <= i < |r| ==> r[i] == rest[i - 1];
  }

  /** Any slice of a collapsed text is collapsed. */
  lemma CollapsedSlice(s: string, lo: nat, hi: nat)
    requires Collapsed(s) && lo <= hi <= |s|
    ensures Collapsed(s[lo..hi])
  {
    var r := s[lo..hi];
    assert forall i :: 0 <= i < |r| ==> r[i] == s[lo + i];
  }

  /** Every run of whitespace replaced by one space (`replace(/\s+/g, ' ')`). */
  function Collapse(s: string): (r: string)
    ensures |r| <= |s|
    ensures |s| == 0 <==> |r| == 0
    decreases |s|
  {
    if |s| == 0 then ""
    else if IsSpace(s[0]) then [' '] + Collapse(DropSpaces(s))
    else [s[0]] + Collapse(s[1..])
  }

  /** The result of collapsing has only single spaces, and starts with one iff the text starts with whitespace. */
  lemma {:induction false} CollapseIsCollapsed(s: string)
    ensures Collapsed(Collapse(s))
    ensures |s| > 0 ==> (IsSpace(s[0]) <==> IsSpace(Collapse(s)[0]))
    decreases |s|
  {
    if |s| > 0 {
      if IsSpace(s[0]) {
        var d := DropSpaces(s);
        CollapseIsCollapsed(d);
        ConsCollapsed(' ', Collapse(d));
      } else {
        CollapseIsCollapsed(s[1..]);
        ConsCollapsed(s[0], Collapse(s[1..]));
      }
    }
  }

  /** Collapsing adds no character other than the space. */
  lemma {:induction false} CollapseChars(s: string)
    ensures forall c :: c in Collapse(s) ==> c == ' ' || c in s
    decreases |s|
  {
    if |s| > 0 {
      if IsSpace(s[0]) {
        var d := DropSpaces(s);
        CollapseChars(d);
        assert forall c :: c in d ==> c in s;
      } else {
        CollapseChars(s[1..]);
        assert forall c :: c in s[1..] ==> c in s;
      }
    }
  }

  /** The text without any whitespace: what collapsing must keep. */
  function Squash(s: string): string {
    if |s| == 0 then "" else (if IsSpace(s[0]) then "" else [s[0]]) + Squash(s[1..])
  }

  lemma {:induction false} SquashAppend(a: string, b: string)
    ensures Squash(a + b) == Squash(a) + Squash(b)
  {
    if |a| > 0 {
      assert (a + b)[1..] == a[1..] + b;
      assert (a + b)[0] == a[0];
      SquashAppend(a[1..], b);
    } else {
      assert a + b == b;
    }
  }

  lemma {:induction false} SquashDropSpaces(s: string)
    ensures Squash(DropSpaces(s)) == Squash(s)
  {
    if |s| > 0 && IsSpace(s[0]) {
      SquashDropSpaces(s[1..]);
    }
  }

  /** Collapsing keeps every non-whitespace character, in order. */
  lemma {:induction false} CollapseKeepsText(s: string)
    ensures Squash(Collapse(s)) == Squash(s)
    decreases |s|
  {
    if |s| > 0 {
      if IsSpace(s[0]) {
        var d := DropSpaces(s);
        CollapseKeepsText(d);
        SquashDropSpaces(s);
        SquashAppend([' '], Collapse(d));
      } else {
        CollapseKeepsText(s[1..]);
        SquashAppend([s[0]], Collapse(s[1..]));
      }
    }
  }

  /** Collapsing an already collapsed text changes nothing. */
  lemma {:induction false} CollapseIdempotent(s: string)
    requires Collapsed(s)
    ensures Collapse(s) == s
  {
    if |s| > 0 {
      var t := s[1..];
      CollapsedSlice(s, 1, |s|);
      CollapseIdempotent(t);
      if IsSpace(s[0]) {
        assert |t| > 0 ==> !IsSpace(t[0]) by {
          if |t| > 0 { assert !(s[0] == ' ' && s[1] == ' '); }
        }
        assert DropSpaces(s) == t;
      }
      assert [s[0]] + t == s;
    }
  }

  /** Collapsing works piecewise across a non-whitespace character. */
  lemma {:induction false} CollapseAppend(a: string, b: string)
    requires |b| > 0 && !IsSpace(b[0])
    ensures Collapse(a + b) == Collapse(a) + Collapse(b)
    decreases |a|
  {
    if |a| == 0 {
      EmptyLeft(a, b);
      EmptyLeft(Collapse(a), Collapse(b));
    } else if IsSpace(a[0]) {
      CollapseAppend(DropSpaces(a), b);
      CollapseAppendSpace(a, b);
    } else {
      CollapseAppend(a[1..], b);
      CollapseAppendChar(a, b);
    }
  }

  /** The step of `CollapseAppend` for a text starting with whitespace. */
  lemma CollapseAppendSpace(a: string, b: string)
    requires |a| > 0 && IsSpace(a[0]) && |b| > 0 && !IsSpace(b[0])
    requires Collapse(DropSpaces(a) + b) == Collapse(DropSpaces(a)) + Collapse(b)
    ensures Collapse(a + b) == Collapse(a) + Collapse(b)
  {
    ConsParts(a, b);
    DropSpacesAppend(a, b);
    ConsAssoc(' ', Collapse(DropSpaces(a)), Collapse(b));
  }

  /** The step of `CollapseAppend` for a text starting with another character. */
  lemma CollapseAppendChar(a: string, b: string)
    requires |a| > 0 && !IsSpace(a[0]) && |b| > 0
    requires Collapse(a[1..] + b) == Collapse(a[1..]) + Collapse(b)
    ensures Collapse(a + b) == Collapse(a) + Collapse(b)
  {
    ConsParts(a, b);
    ConsAssoc(a[0], Collapse(a[1..]), Collapse(b));
  }

  lemma {:induction false} DropSpacesAppend(a: string, b: string)
    requires |b| > 0 && !IsSpace(b[0])
    ensures DropSpaces(a + b) == DropSpaces(a) + b
  {
    if |a| > 0 {
      ConsParts(a, b);
      if IsSpace(a[0]) {
        DropSpacesAppend(a[1..], b);
      } else {
        assert DropSpaces(a) == a;
      }
    } else {
      EmptyLeft(a, b);
      assert DropSpaces(a) == a;
    }
  }

  /** Everything from the first `#` on removed (`replace(/#.*$/, '')` once no line break is left). */
  function StripComment(s: string): (r: string)
    ensures '#' !in r
    ensures |r| <= |s| && r == s[..|r|]
    ensures |r| < |s| ==> s[|r|] == '#'
  {
    if |s| == 0 || s[0] == '#' then "" else [s[0]] + StripComment(s[1..])
  }

  /** The line as the parser reads it: whitespace collapsed, comment removed, trimmed. */
  function CleanLine(raw: string): string {
    Trim(StripComment(Collapse(raw)))
  }

  /** Trimming a collapsed text leaves a collapsed text with no space at either end, made of its characters. */
  lemma TrimShape(s: string)
    requires Collapsed(s)
    ensures var t := Trim(s);
      && Collapsed(t)
      && (|t| > 0 ==> !IsSpace(t[0]) && !IsSpace(t[|t| - 1]))
      && forall x :: x in t ==> x in s
  {
    var d := DropSpaces(s);
    CollapsedSlice(s, |s| - |d|, |s|);
    var t := DropTrailing(d);
    CollapsedSlice(d, 0, |t|);
    assert forall i :: 0 <= i < |t| ==> t[i] == s[|s| - |d| + i];
    if |t| > 0 {
      assert t[0] == d[0];
      assert !IsSpace(t[0]);
      assert !IsSpace(t[|t| - 1]);
    }
  }

  /** A clean line has no `#`, only single spaces, and no space at either end. */
  lemma CleanLineShape(raw: string)
    ensures var line := CleanLine(raw);
      && '#' !in line
      && Collapsed(line)
      && (|line| > 0 ==> !IsSpace(line[0]) && !IsSpace(line[|line| - 1]))
  {
    var c := Collapse(raw);
    CollapseIsCollapsed(raw);
    var s := StripComment(c);
    CollapsedSlice(c, 0, |s|);
    TrimShape(s);
  }

  /** So the source's test for a line starting with `#` never fires. */
  lemma HashTestNeverFires(raw: string)
    ensures |CleanLine(raw)| > 0 ==> CleanLine(raw)[0] != '#'
  {
    CleanLineShape(raw);
  }

  /** A line of whitespace only is empty once cleaned. */
  lemma BlankLineIsEmpty(raw: string)
    requires forall i :: 0 <= i < |raw| ==> IsSpace(raw[i])
    ensures CleanLine(raw) == ""
  {
    if |raw| > 0 {
      assert DropSpaces(raw) == "";
      assert Collapse(raw) == [' '];
      assert StripComment([' ']) == [' '];
      assert DropSpaces([' ']) == "";
    }
  }

  /** Everything from the first `#` on is ignored: the line reads as its part before it. */
  lemma CommentDropped(raw: string, p: nat)
    requires p < |raw| && raw[p] == '#'
    requires forall i :: 0 <= i < p ==> raw[i] != '#'
    ensures CleanLine(raw) == CleanLine(raw[..p])
  {
    var a, b := raw[..p], raw[p..];
    SplitAt(raw, p);
    assert b[0] == '#' && '#' !in a;
    CollapseAppend(a, b);
    CollapseChars(a);
    StripBeforeHash(Collapse(a), Collapse(b));
    StripNoHash(Collapse(a));
  }

  /** Stripping a text that reaches a `#` keeps exactly the part before it. */
  lemma {:induction false} StripBeforeHash(a: string, b: string)
    requires '#' !in a && |b| > 0 && b[0] == '#'
    ensures StripComment(a + b) == a
  {
    if |a| > 0 {
      ConsParts(a, b);
      StripBeforeHash(a[1..], b);
      HeadTail(a);
    } else {
      EmptyLeft(a, b);
    }
  }

  lemma StripNoHash(a: string)
    requires '#' !in a
    ensures StripComment(a) == a
  {
  }

  /** Cleaning is idempotent. */
  lemma CleanLineIdempotent(raw: string)
    ensures CleanLine(CleanLine(raw)) == CleanLine(raw)
  {
    var line := CleanLine(raw);
    CleanLineShape(raw);
    CollapseIdempotent(line);
    StripNoHash(line);
    if |line| > 0 {
      assert DropSpaces(line) == line;
      assert DropTrailing(line) == line;
    }
  }

  // ---------------------------------------------------------------------------
  // Directives

  /** What a line contributes. */
  datatype LineKind =
    | Ignored
    | VertexLine(coords: seq<real>)   // at most three numbers
    | TetLine(index: seq<int>)        // every number on the line

  /** Every token parsed, in order (`map(parseFloat)`, `map(n => parseInt(n))`). */
  function ParseAll<T>(ts: seq<string>, parse: string -> T): (r: seq<T>)
    ensures |r| == |ts| && forall k :: 0 <= k < |ts| ==> r[k] == parse(ts[k])
  {
    seq(|ts|, k requires 0 <= k < |ts| => parse(ts[k]))
  }

  /** The numbers after a two-character directive, split at single spaces. */
  function Tokens(line: string): seq<string>
    requires |line| >= 2
  {
    Split(Trim(line[2..]), ' ')
  }

  predicate StartsWith(line: string, tag: string) {
    |line| >= |tag| && line[..|tag|] == tag
  }

  /** What one cleaned line contributes. */
  function ClassifyLine(line: string, parseFloat: string -> real, parseInt: string -> int): (r: LineKind)
    ensures r.VertexLine? ==> |r.coords| <= 3
  {
    if |line| == 0 then Ignored
    else if line[0] == '#' then Ignored
    else if StartsWith(line, "v ") then
      var data := ParseAll(Tokens(line), parseFloat);
      VertexLine(if |data| <= 3 then data else data[..3])
    else if StartsWith(line, "t ") then
      TetLine(ParseAll(Tokens(line), parseInt))
    else Ignored
  }

  /** Read one line of the file. */
  function Classify(raw: string, parseFloat: string -> real, parseInt: string -> int): (r: LineKind)
    ensures r.VertexLine? ==> |r.coords| <= 3
  {
    ClassifyLine(CleanLine(raw), parseFloat, parseInt)
  }

  /**
   * Only lines that start with `v ` or `t ` contribute; a vertex line gives
   * its first three numbers (fewer if it has fewer), a tetrahedron line
   * every number in order.
   */
  lemma ClassifyLineCases(line: string, parseFloat: string -> real, parseInt: string -> int)
    ensures var r := ClassifyLine(line, parseFloat, parseInt);
      && (r.VertexLine? <==> StartsWith(line, "v "))
      && (r.TetLine? <==> StartsWith(line, "t "))
      && (r.VertexLine? ==> var ts := Tokens(line);
            |r.coords| == (if |ts| < 3 then |ts| else 3)
            && forall k :: 0 <= k < |r.coords| ==> r.coords[k] == parseFloat(ts[k]))
      && (r.TetLine? ==> var ts := Tokens(line);
            |r.index| == |ts| && forall k :: 0 <= k < |ts| ==> r.index[k] == parseInt(ts[k]))
  {
    if StartsWith(line, "v ") || StartsWith(line, "t ") {
      assert line[0] == line[..2][0];
    }
  }

  /**
   * The numbers of a directive line are non-empty and free of whitespace:
   * they are exactly the space-separated words after the tag.
   */
  lemma TokensAreWords(raw: string)
    requires StartsWith(CleanLine(raw), "v ") || StartsWith(CleanLine(raw), "t ")
    ensures var line := CleanLine(raw);
      var ts := Tokens(line);
      && Join(ts, ' ') == line[2..]
      && forall k :: 0 <= k < |ts| ==> IsWord(ts[k])
  {
    var line := CleanLine(raw);
    CleanLineShape(raw);
    assert line[1] == ' ' by {
      assert line[..2] == "v " || line[..2] == "t ";
    }
    assert |line| > 2;
    RestOfDirective(line);
    JoinSplit(line[2..], ' ');
    WordsOfCollapsed(line[2..]);
  }

  /** A non-empty run of characters none of which is whitespace. */
  predicate IsWord(w: string) {
    |w| > 0 && forall i :: 0 <= i < |w| ==> !IsSpace(w[i])
  }

  /** After a directive's tag comes a collapsed, already trimmed text. */
  lemma RestOfDirective(line: string)
    requires Collapsed(line) && |line| > 2 && line[1] == ' ' && !IsSpace(line[|line| - 1])
    ensures var rest := line[2..];
      && |rest| > 0 && !IsSpace(rest[0]) && !IsSpace(rest[|rest| - 1])
      && Collapsed(rest) && Trim(rest) == rest
  {
    var rest := line[2..];
    assert !(line[1] == ' ' && line[2] == ' ');
    assert rest[0] == line[2] && rest[|rest| - 1] == line[|line| - 1];
    CollapsedSlice(line, 2, |line|);
    assert DropSpaces(rest) == rest;
  }

  /** The pieces of a collapsed text with no space at either end are words. */
  lemma {:induction false} WordsOfCollapsed(s: string)
    requires Collapsed(s) && |s| > 0 && !IsSpace(s[0]) && !IsSpace(s[|s| - 1])
    ensures forall k :: 0 <= k < |Split(s, ' ')| ==> IsWord(Split(s, ' ')[k])
  {
    var ts := Split(s, ' ');
    var t := s[1..];
    if |t| == 0 {
      assert Split(t, ' ') == [""];
      assert ts == [[s[0]] + ""];
      assert [s[0]] + "" == [s[0]];
      assert IsWord([s[0]]);
    } else if t[0] == ' ' {
      var u := t[1..];
      assert |u| > 0 && !IsSpace(u[0]) by {
        assert !(s[1] == ' ' && s[2] == ' ');
      }
      CollapsedSlice(s, 2, |s|);
      assert u == s[2..];
      assert u[|u| - 1] == s[|s| - 1];
      WordsOfCollapsed(u);
      var rt := Split(t, ' ');
      assert rt == [""] + Split(u, ' ');
      assert rt[0] == "" && rt[1..] == Split(u, ' ');
      assert ts == [[s[0]] + rt[0]] + rt[1..];
      assert [s[0]] + "" == [s[0]];
      assert IsWord([s[0]]);
      assert forall k :: 1 <= k < |ts| ==> ts[k] == Split(u, ' ')[k - 1];
    } else {
      CollapsedSlice(s, 1, |s|);
      assert !IsSpace(t[0]) by {
        assert t[0] == s[1];
      }
      assert t[|t| - 1] == s[|s| - 1];
      WordsOfCollapsed(t);
      var rt := Split(t, ' ');
      assert forall k :: 0 <= k < |rt| ==> IsWord(rt[k]);
      assert |rt| >= 1;
      assert IsWord(rt[0]);
      assert ts == [[s[0]] + rt[0]] + rt[1..];
      var w := [s[0]] + rt[0];
      assert ts[0] == w;
      assert IsWord(w) by {
        forall i | 0 <= i < |w|
          ensures !IsSpace(w[i])
        {
          if i > 0 { assert w[i] == rt[0][i - 1]; }
        }
      }
      assert forall k :: 1 <= k < |ts| ==> ts[k] == rt[k];
    }
  }

  // ---------------------------------------------------------------------------
  // The whole file

  /** What the lines read so far have produced: the flat vertex numbers and the index lists. */
  datatype Gathered = Gathered(numbers: seq<real>, indices: seq<seq<int>>)

  /** Add one line's contribution. */
  function Take(g: Gathered, k: LineKind): Gathered {
    match k
    case Ignored => g
    case VertexLine(coords) => g.(numbers := g.numbers + coords)
    case TetLine(index) => g.(indices := g.indices + [index])
  }

  /** The line reader with the number parsers fixed. */
  function Reader(parseFloat: string -> real, parseInt: string -> int): string -> LineKind {
    raw => Classify(raw, parseFloat, parseInt)
  }

  /** All lines, in file order, each read by `read`. */
  function Gather(lines: seq<string>, read: string -> LineKind): Gathered {
    if |lines| == 0 then Gathered([], [])
    else Take(Gather(lines[..|lines| - 1], read), read(lines[|lines| - 1]))
  }

  /** The file read in two parts: the numbers and the index lists of the parts, one after the other. */
  lemma {:induction false} GatherAppend(a: seq<string>, b: seq<string>, read: string -> LineKind)
    ensures var ga, gb := Gather(a, read), Gather(b, read);
      Gather(a + b, read) == Gathered(ga.numbers + gb.numbers, ga.indices + gb.indices)
  {
    if |b| == 0 {
      assert a + b == a;
    } else {
      var b0 := b[..|b| - 1];
      assert (a + b)[..|a + b| - 1] == a + b0;
      assert (a + b)[|a + b| - 1] == b[|b| - 1];
      GatherAppend(a, b0, read);
      var ga, g0 := Gather(a, read), Gather(b0, read);
      match read(b[|b| - 1])
      case Ignored =>
      case VertexLine(coords) =>
        assert ga.numbers + g0.numbers + coords == ga.numbers + (g0.numbers + coords);
      case TetLine(index) =>
        assert ga.indices + g0.indices + [index] == ga.indices + (g0.indices + [index]);
    }
  }

  /** A single line contributes exactly its own reading. */
  lemma GatherOne(line: string, read: string -> LineKind)
    ensures Gather([line], read) == Take(Gathered([], []), read(line))
  {
    assert [line][..0] == [];
  }

  function TetLinesOf(lines: seq<string>, read: string -> LineKind): set<nat> {
    set j: nat | j < |lines| && read(lines[j]).TetLine?
  }

  function VertexLinesOf(lines: seq<string>, read: string -> LineKind): set<nat> {
    set j: nat | j < |lines| && read(lines[j]).VertexLine?
  }

  /** One index list per tetrahedron line, at most three numbers per vertex line. */
  lemma {:induction false} GatherCounts(lines: seq<string>, read: string -> LineKind)
    requires forall raw :: read(raw).VertexLine? ==> |read(raw).coords| <= 3
    ensures var g := Gather(lines, read);
      && |g.indices| == |TetLinesOf(lines, read)|
      && |g.numbers| <= 3 * |VertexLinesOf(lines, read)|
  {
    if |lines| > 0 {
      GatherCounts(lines[..|lines| - 1], read);
      TetLinesSnoc(lines, read);
      VertexLinesSnoc(lines, read);
    }
  }

  lemma TetLinesSnoc(lines: seq<string>, read: string -> LineKind)
    requires |lines| > 0
    ensures var last := |lines| - 1;
      |TetLinesOf(lines, read)| == |TetLinesOf(lines[..last], read)| + (if read(lines[last]).TetLine? then 1 else 0)
  {
    var last := |lines| - 1;
    var init := lines[..last];
    assert forall j :: 0 <= j < last ==> init[j] == lines[j];
    var before := TetLinesOf(init, read);
    assert last !in before;
    if read(lines[last]).TetLine? {
      assert TetLinesOf(lines, read) == before + {last};
    } else {
      assert TetLinesOf(lines, read) == before;
    }
  }

  lemma VertexLinesSnoc(lines: seq<string>, read: string -> LineKind)
    requires |lines| > 0
    ensures var last := |lines| - 1;
      |VertexLinesOf(lines, read)| == |VertexLinesOf(lines[..last], read)| + (if read(lines[last]).VertexLine? then 1 else 0)
  {
    var last := |lines| - 1;
    var init := lines[..last];
    assert forall j :: 0 <= j < last ==> init[j] == lines[j];
    var before := VertexLinesOf(init, read);
    assert last !in before;
    if read(lines[last]).VertexLine? {
      assert VertexLinesOf(lines, read) == before + {last};
    } else {
      assert VertexLinesOf(lines, read) == before;
    }
  }

  /** The number at `i`, or `absent` past the end (an out-of-range read). */
  function At(numbers: seq<real>, i: nat, absent: real): real {
    if i < |numbers| then numbers[i] else absent
  }

  lemma AtDrop3(numbers: seq<real>, i: nat, absent: real)
    requires |numbers| >= 3
    ensures At(numbers[3..], i, absent) == At(numbers, i + 3, absent)
  {
  }

  /**
   * Consecutive triples of the flat numbers, one vertex per started triple;
   * coordinates past the end read as `absent`.
   */
  function Group3(numbers: seq<real>, absent: real): (r: seq<Vec3>)
    ensures |r| == (|numbers| + 2) / 3
    ensures forall k :: 0 <= k < |r| ==>
      r[k] == Vec3(At(numbers, 3 * k, absent), At(numbers, 3 * k + 1, absent), At(numbers, 3 * k + 2, absent))
    decreases |numbers|
  {
    if |numbers| == 0 then []
    else if |numbers| < 3 then
      [Vec3(At(numbers, 0, absent), At(numbers, 1, absent), At(numbers, 2, absent))]
    else
      var tail := Group3(numbers[3..], absent);
      var r := [Vec3(numbers[0], numbers[1], numbers[2])] + tail;
      assert forall k :: 1 <= k < |r| ==>
        r[k] == Vec3(At(numbers, 3 * k, absent), At(numbers, 3 * k + 1, absent), At(numbers, 3 * k + 2, absent)) by {
        forall k | 1 <= k < |r|
          ensures r[k] == Vec3(At(numbers, 3 * k, absent), At(numbers, 3 * k + 1, absent), At(numbers, 3 * k + 2, absent))
        {
          assert r[k] == tail[k - 1];
          AtDrop3(numbers, 3 * (k - 1), absent);
          AtDrop3(numbers, 3 * (k - 1) + 1, absent);
          AtDrop3(numbers, 3 * (k - 1) + 2, absent);
        }
      }
      r
  }

  /** With a whole number of triples, grouping is the regrouping used by the integrator's arrays. */
  lemma Group3IsUnflatten(numbers: seq<real>, absent: real)
    requires |numbers| % 3 == 0
    ensures Group3(numbers, absent) == Unflatten(numbers)
  {
    var r, u := Group3(numbers, absent), Unflatten(numbers);
    forall k | 0 <= k < |r|
      ensures r[k] == u[k]
    {
      assert 3 * k + 2 < |numbers|;
    }
  }

  /** Grouping the flattening of vectors gives the vectors back. */
  lemma Group3Flatten(vs: seq<Vec3>, absent: real)
    ensures Group3(Flatten(vs), absent) == vs
  {
    Group3IsUnflatten(Flatten(vs), absent);
    UnflattenFlatten(vs);
  }

  /** A trailing incomplete triple still makes a vertex, its missing coordinates read as `absent`. */
  lemma Group3Partial(numbers: seq<real>, absent: real)
    requires |numbers| % 3 == 1
    ensures var r := Group3(numbers, absent);
      |r| == |numbers| / 3 + 1 && r[|r| - 1] == Vec3(numbers[|numbers| - 1], absent, absent)
  {
  }

  /** What a file describes: vertex positions and one index list per tetrahedron line. */
  datatype MeshData = MeshData(vertices: seq<Vec3>, indices: seq<seq<int>>)

  /** Parse a whole file: split into lines, read each, group the vertex numbers. */
  function ParseMesh(text: string, parseFloat: string -> real, parseInt: string -> int, absent: real): (r: MeshData)
    ensures |r.indices| == |TetLinesOf(Split(text, '\n'), Reader(parseFloat, parseInt))|
  {
    var lines, read := Split(text, '\n'), Reader(parseFloat, parseInt);
    GatherCounts(lines, read);
    var g := Gather(lines, read);
    MeshData(Group3(g.numbers, absent), g.indices)
  }

  /**
   * The parsed mesh has one index list per tetrahedron line and one vertex
   * per started triple of vertex numbers, at most one per vertex line.
   */
  lemma ParseMeshCounts(text: string, parseFloat: string -> real, parseInt: string -> int, absent: real)
    ensures var lines := Split(text, '\n');
      var read := Reader(parseFloat, parseInt);
      var r := ParseMesh(text, parseFloat, parseInt, absent);
      && |r.indices| == |TetLinesOf(lines, read)|
      && |r.vertices| <= |VertexLinesOf(lines, read)|
  {
    GatherCounts(Split(text, '\n'), Reader(parseFloat, parseInt));
  }

  /**
   * Two texts joined by a line break: the index lists concatenate, and so
   * do the vertices when the first part holds whole triples.
   */
  lemma ParseMeshAppend(a: string, b: string, parseFloat: string -> real, parseInt: string -> int, absent: real)
    requires |Gather(Split(a, '\n'), Reader(parseFloat, parseInt)).numbers| % 3 == 0
    ensures var ra, rb := ParseMesh(a, parseFloat, parseInt, absent), ParseMesh(b, parseFloat, parseInt, absent);
      ParseMesh(a + "\n" + b, parseFloat, parseInt, absent) == MeshData(ra.vertices + rb.vertices, ra.indices + rb.indices)
  {
    var read := Reader(parseFloat, parseInt);
    var pa, pb := Split(a, '\n'), Split(b, '\n');
    SplitJoin(pa + pb, '\n');
    JoinSplit(a, '\n');
    JoinSplit(b, '\n');
    JoinAppend(pa, pb, '\n');
    assert Split(a + "\n" + b, '\n') == pa + pb;
    GatherAppend(pa, pb, read);
    Group3Append(Gather(pa, read).numbers, Gather(pb, read).numbers, absent);
  }

  lemma {:induction false} JoinAppend(a: seq<string>, b: seq<string>, sep: char)
    requires |a| >= 1 && |b| >= 1
    ensures Join(a + b, sep) == Join(a, sep) + [sep] + Join(b, sep)
  {
    if |a| == 1 {
      assert (a + b)[1..] == b;
    } else {
      assert (a + b)[1..] == a[1..] + b;
      JoinAppend(a[1..], b, sep);
    }
  }

  lemma Group3Append(a: seq<real>, b: seq<real>, absent: real)
    requires |a| % 3 == 0
    ensures Group3(a + b, absent) == Group3(a, absent) + Group3(b, absent)
  {
    var r, ra, rb := Group3(a + b, absent), Group3(a, absent), Group3(b, absent);
    assert |a| == 3 * |ra|;
    assert |r| == |ra| + |rb|;
    forall k | 0 <= k < |r|
      ensures r[k] == (ra + rb)[k]
    {
      if k < |ra| {
        assert 3 * k + 2 < |a|;
      } else {
        var j := k - |ra|;
        assert 3 * k == |a| + 3 * j;
        AtAppend(a, b, 3 * j, absent);
        AtAppend(a, b, 3 * j + 1, absent);
        AtAppend(a, b, 3 * j + 2, absent);
      }
    }
  }

  lemma AtAppend(a: seq<real>, b: seq<real>, j: nat, absent: real)
    ensures At(a + b, |a| + j, absent) == At(b, j, absent)
  {
  }
}
