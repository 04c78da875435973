/** The timezone-reference rewriter of the calendar fixer: for each alias of
    the table, in order, if its Windows name occurs anywhere in the calendar
    text, every `TZID=<name>` (a property parameter) and then every
    `TZID:<name>` (a definition header) is replaced by the same form with the
    IANA identifier, and the alias is counted. Matching is plain substring
    replacement, as in the program. */
module Rewriter {
  import opened Text
  import opened Aliases

  /** Parameter form of a reference: `DTSTART;TZID=<name>:...`. */
  const Param := "TZID="
  /** Definition header form of a reference: `TZID:<name>`. */
  const Header := "TZID:"

  predicate IsMarker(m: string) {
    m == Param || m == Header
  }

  /** A character of a Windows name: a letter, a space or a dot. */
  predicate KeyChar(c: char) {
    ('A' <= c <= 'Z') || ('a' <= c <= 'z') || c == ' ' || c == '.'
  }

  /** A character of an IANA identifier: a letter, a slash or an underscore. */
  predicate ValueChar(c: char) {
    ('A' <= c <= 'Z') || ('a' <= c <= 'z') || c == '/' || c == '_'
  }

  /** What the proofs need of a Windows name: it is made of letters, spaces
      and dots, holds a space, and ends in a lower-case letter. */
  predicate SafeKey(k: string) {
    && k != []
    && (forall j :: 0 <= j < |k| ==> KeyChar(k[j]))
    && ' ' in k
    && 'a' <= k[|k| - 1] <= 'z'
  }

  /** What the proofs need of an IANA identifier: it is made of letters,
      slashes and underscores, holds a slash, and ends in a lower-case
      letter. */
  predicate SafeValue(v: string) {
    && v != []
    && (forall j :: 0 <= j < |v| ==> ValueChar(v[j]))
    && '/' in v
    && 'a' <= v[|v| - 1] <= 'z'
  }

  predicate SafeTable(table: seq<Alias>) {
    && DistinctKeys(table)
    && forall i :: 0 <= i < |table| ==> SafeKey(table[i].0) && SafeValue(table[i].1)
  }

  /** The program's table meets these conditions, checked entry by entry. */
  lemma TableIsSafe()
    ensures SafeTable(TzMapping)
  {
    TableShape();
    forall i | 0 <= i < |TzMapping| ensures SafeKey(TzMapping[i].0) && SafeValue(TzMapping[i].1) {
      EntrySafe(i);
    }
  }

  lemma EntrySafe(i: nat)
    requires i < |TzMapping|
    ensures SafeKey(TzMapping[i].0) && SafeValue(TzMapping[i].1)
  {
    if i == 0 {
      EntrySafe0();
    } else if i == 1 {
      EntrySafe1();
    } else if i == 2 {
      EntrySafe2();
    } else if i == 3 {
      EntrySafe3();
    } else if i == 4 {
      EntrySafe4();
    } else if i == 5 {
      EntrySafe5();
    } else if i == 6 {
      EntrySafe6();
    } else if i == 7 {
      EntrySafe7();
    } else if i == 8 {
      EntrySafe8();
    } else {
      EntrySafe9();
    }
  }

  lemma EntrySafe0()
    ensures SafeKey(TzMapping[0].0) && SafeValue(TzMapping[0].1)
  {
    assert TzMapping[0] == ("Romance Standard Time", "Europe/Brussels");
  }

  lemma EntrySafe1()
    ensures SafeKey(TzMapping[1].0) && SafeValue(TzMapping[1].1)
  {
    assert TzMapping[1] == ("W. Europe Standard Time", "Europe/Paris");
  }

  lemma EntrySafe2()
    ensures SafeKey(TzMapping[2].0) && SafeValue(TzMapping[2].1)
  {
    assert TzMapping[2] == ("GMT Standard Time", "Europe/London");
  }

  lemma EntrySafe3()
    ensures SafeKey(TzMapping[3].0) && SafeValue(TzMapping[3].1)
  {
    assert TzMapping[3] == ("Eastern Standard Time", "America/New_York");
  }

  lemma EntrySafe4()
    ensures SafeKey(TzMapping[4].0) && SafeValue(TzMapping[4].1)
  {
    assert TzMapping[4] == ("Central European Standard Time", "Europe/Warsaw");
  }

  lemma EntrySafe5()
    ensures SafeKey(TzMapping[5].0) && SafeValue(TzMapping[5].1)
  {
    assert TzMapping[5] == ("Fiji Standard Time", "Pacific/Fiji");
  }

  lemma EntrySafe6()
    ensures SafeKey(TzMapping[6].0) && SafeValue(TzMapping[6].1)
  {
    assert TzMapping[6] == ("Central Standard Time", "America/Chicago");
  }

  lemma EntrySafe7()
    ensures SafeKey(TzMapping[7].0) && SafeValue(TzMapping[7].1)
  {
    assert TzMapping[7] == ("Pacific Standard Time", "America/Los_Angeles");
  }

  lemma EntrySafe8()
    ensures SafeKey(TzMapping[8].0) && SafeValue(TzMapping[8].1)
  {
    assert TzMapping[8] == ("Morocco Standard Time", "Africa/Casablanca");
  }

  lemma EntrySafe9()
    ensures SafeKey(TzMapping[9].0) && SafeValue(TzMapping[9].1)
  {
    assert TzMapping[9] == ("FLE Standard Time", "Europe/Kiev");
  }

  /** A reference `m + k` is never absent from the text and then formed by
      inserting a rewritten reference `w + v`. */
  lemma MarkerCannotForm(m: string, k: string, w: string, v: string)
    requires IsMarker(m) && IsMarker(w) && SafeKey(k) && SafeValue(v)
    ensures CannotForm(m + k, w + v)
  {
    var q, rep := m + k, w + v;
    assert q[..4] == "TZID" && rep[..4] == "TZID";
    assert q[4] in "=:" && rep[4] in "=:";
    forall d | 0 <= d < |rep| ensures !Agree(rep, q, d) {
      if d == 0 {
        if m != w {
          assert rep[4] != q[4];
        } else {
          var s :| 0 <= s < |k| && k[s] == ' ';
          if s < |v| {
            assert v[s] in v;
            assert rep[5 + s] == v[s] != k[s] == q[5 + s];
          } else {
            var t :| 0 <= t < |v| && v[t] == '/';
            assert k[t] in k;
            assert rep[5 + t] == v[t] != k[t] == q[5 + t];
          }
        }
      } else if d + 4 < |rep| {
        assert rep[d + 4] == v[d - 1] && v[d - 1] in v;
        assert rep[d + 4] != q[4];
      } else {
        var j := |rep| - 1 - d;
        assert q[j] == q[..4][j] && q[..4][j] in "TZID";
        assert rep[d + j] == v[|v| - 1] != q[j];
      }
    }
    forall e | 0 < e < |q| ensures !Agree(q, rep, e) {
      if e + 4 < |q| {
        assert q[e + 4] == k[e - 1] && k[e - 1] in k;
        assert q[e + 4] != rep[4];
      } else {
        var j := |q| - 1 - e;
        assert rep[j] == rep[..4][j] && rep[..4][j] in "TZID";
        assert q[e + j] == k[|k| - 1] != rep[j];
      }
    }
  }

  /** One pass of the loop body for one alias, without its guard: both
      reference forms of the Windows name are rewritten. */
  function Retarget(text: string, alias: Alias): string {
    var (k, v) := alias;
    ReplaceAll(ReplaceAll(text, Param + k, Param + v), Header + k, Header + v)
  }

  /** The text after the rewriter has walked `table`. */
  function RewriteAll(table: seq<Alias>, text: string): string
    decreases |table|
  {
    if table == [] then text else RewriteAll(table[1..], Retarget(text, table[0]))
  }

  /** The count after the rewriter has walked `table`: the aliases whose
      Windows name occurs in the text as it stands when their turn comes. */
  function Found(table: seq<Alias>, text: string): nat
    decreases |table|
  {
    if table == [] then 0
    else
      (if Contains(text, table[0].0) then 1 else 0)
      + Found(table[1..], Retarget(text, table[0]))
  }

  /** How many Windows names of `table` occur in `text`. */
  function KeysPresent(table: seq<Alias>, text: string): nat
    decreases |table|
  {
    if table == [] then 0
    else (if Contains(text, table[0].0) then 1 else 0) + KeysPresent(table[1..], text)
  }

  /** No reference, in either form, to a Windows name of `table`. */
  predicate NoReferences(table: seq<Alias>, text: string) {
    forall i :: 0 <= i < |table| ==>
      !Contains(text, Param + table[i].0) && !Contains(text, Header + table[i].0)
  }

  /** The guard of the loop body: when the Windows name does not occur at
      all, neither does a reference to it, and skipping the pass is the same
      as running it. */
  lemma RetargetUnchanged(text: string, alias: Alias)
    requires !Contains(text, Param + alias.0) && !Contains(text, Header + alias.0)
    ensures Retarget(text, alias) == text
  {
    ReplaceAllUnchanged(text, Param + alias.0, Param + alias.1);
    ReplaceAllUnchanged(text, Header + alias.0, Header + alias.1);
  }

  lemma AbsentNameNoReference(text: string, k: string, m: string)
    requires !Contains(text, k)
    ensures !Contains(text, m + k)
  {
    if Contains(text, m + k) {
      ContainsParts(text, m, k);
    }
  }

  /** A pass leaves no reference to its own Windows name. */
  lemma RetargetClears(text: string, alias: Alias)
    requires SafeKey(alias.0) && SafeValue(alias.1)
    ensures !Contains(Retarget(text, alias), Param + alias.0)
    ensures !Contains(Retarget(text, alias), Header + alias.0)
  {
    var (k, v) := alias;
    var t1 := ReplaceAll(text, Param + k, Param + v);
    MarkerCannotForm(Param, k, Param, v);
    NoNewOccurrence(text, Param + k, Param + v, Param + k);
    MarkerCannotForm(Param, k, Header, v);
    assert (Param + k)[4] != (Header + k)[4];
    NoNewOccurrence(t1, Header + k, Header + v, Param + k);
    MarkerCannotForm(Header, k, Header, v);
    NoNewOccurrence(t1, Header + k, Header + v, Header + k);
  }

  /** A pass for another alias does not bring back a reference `q` that is
      absent. */
  lemma RetargetPreserves(text: string, alias: Alias, m: string, k: string)
    requires IsMarker(m) && SafeKey(k) && SafeValue(alias.1) && k != alias.0
    requires !Contains(text, m + k)
    ensures !Contains(Retarget(text, alias), m + k)
  {
    var q := m + k;
    assert q[5..] == k;
    assert (Param + alias.0)[5..] == alias.0 && (Header + alias.0)[5..] == alias.0;
    MarkerCannotForm(m, k, Param, alias.1);
    NoNewOccurrence(text, Param + alias.0, Param + alias.1, q);
    MarkerCannotForm(m, k, Header, alias.1);
    NoNewOccurrence(ReplaceAll(text, Param + alias.0, Param + alias.1), Header + alias.0, Header + alias.1, q);
  }

  /** Walking a table whose names all differ from `k` does not bring back an
      absent reference to `k`. */
  lemma {:induction false} RewriteAllPreserves(table: seq<Alias>, text: string, m: string, k: string)
    requires IsMarker(m) && SafeKey(k) && !Contains(text, m + k)
    requires forall i :: 0 <= i < |table| ==> SafeValue(table[i].1) && table[i].0 != k
    ensures !Contains(RewriteAll(table, text), m + k)
    decreases |table|
  {
    if table != [] {
      RetargetPreserves(text, table[0], m, k);
      RewriteAllPreserves(table[1..], Retarget(text, table[0]), m, k);
    }
  }

  /** After the walk no reference to any Windows name of the table is left:
      each pass removes its own references, and no later pass can form one. */
  lemma {:induction false} RewriteAllClears(table: seq<Alias>, text: string)
    requires SafeTable(table)
    ensures NoReferences(table, RewriteAll(table, text))
    decreases |table|
  {
    if table != [] {
      var t1 := Retarget(text, table[0]);
      var rest := table[1..];
      assert SafeTable(rest) by {
        forall i, j | 0 <= i < j < |rest| ensures rest[i].0 != rest[j].0 {
          assert rest[i] == table[i + 1] && rest[j] == table[j + 1];
        }
      }
      RetargetClears(text, table[0]);
      RewriteAllClears(rest, t1);
      assert forall i :: 0 <= i < |rest| ==> rest[i] == table[i + 1];
      RewriteAllPreserves(rest, t1, Param, table[0].0);
      RewriteAllPreserves(rest, t1, Header, table[0].0);
      forall i | 0 <= i < |table|
        ensures !Contains(RewriteAll(table, text), Param + table[i].0)
        ensures !Contains(RewriteAll(table, text), Header + table[i].0)
      {
        if i > 0 {
          assert table[i] == rest[i - 1];
        }
      }
    }
  }

  /** With no reference in the text, the walk changes nothing, and the
      count is the number of Windows names that occur anywhere in it: a name
      in a description or a summary is counted although nothing is rewritten. */
  lemma {:induction false} NoReferencesUnchanged(table: seq<Alias>, text: string)
    requires NoReferences(table, text)
    ensures RewriteAll(table, text) == text
    ensures Found(table, text) == KeysPresent(table, text)
    decreases |table|
  {
    if table != [] {
      RetargetUnchanged(text, table[0]);
      assert NoReferences(table[1..], text) by {
        forall i | 0 <= i < |table| - 1
          ensures !Contains(text, Param + table[1..][i].0) && !Contains(text, Header + table[1..][i].0)
        {
          assert table[1..][i] == table[i + 1];
        }
      }
      NoReferencesUnchanged(table[1..], text);
    }
  }

  /** With no Windows name anywhere in the text, the walk changes nothing
      and counts nothing. */
  lemma {:induction false} NoNamesUnchanged(table: seq<Alias>, text: string)
    requires forall i :: 0 <= i < |table| ==> !Contains(text, table[i].0)
    ensures RewriteAll(table, text) == text
    ensures Found(table, text) == 0
    decreases |table|
  {
    if table != [] {
      AbsentNameNoReference(text, table[0].0, Param);
      AbsentNameNoReference(text, table[0].0, Header);
      RetargetUnchanged(text, table[0]);
      assert forall i :: 0 <= i < |table| - 1 ==> table[1..][i] == table[i + 1];
      NoNamesUnchanged(table[1..], text);
    }
  }

  /** The count is at most the number of aliases. */
  lemma {:induction false} FoundBounded(table: seq<Alias>, text: string)
    ensures Found(table, text) <= |table|
    decreases |table|
  {
    if table != [] {
      FoundBounded(table[1..], Retarget(text, table[0]));
    }
  }

  /** Rewriting is idempotent: a second walk over the output changes
      nothing (its count is that of the names the output still holds). */
  lemma Idempotent(table: seq<Alias>, text: string)
    requires SafeTable(table)
    ensures RewriteAll(table, RewriteAll(table, text)) == RewriteAll(table, text)
    ensures Found(table, RewriteAll(table, text)) == KeysPresent(table, RewriteAll(table, text))
  {
    RewriteAllClears(table, text);
    NoReferencesUnchanged(table, RewriteAll(table, text));
  }

  /** The entries after the first of a safe table form a safe table. */
  lemma SafeTableTail(table: seq<Alias>)
    requires SafeTable(table) && table != []
    ensures SafeTable(table[1..])
  {
    var rest := table[1..];
    forall i, j | 0 <= i < j < |rest| ensures rest[i].0 != rest[j].0 {
      assert rest[i] == table[i + 1] && rest[j] == table[j + 1];
    }
    forall i | 0 <= i < |rest| ensures SafeKey(rest[i].0) && SafeValue(rest[i].1) {
      assert rest[i] == table[i + 1];
    }
  }

  /** The spaces of `x + m + k + y`, with `x`, `m` and `y` free of spaces,
      are those of `k`. */
  lemma SpaceInReference(x: string, m: string, k: string, y: string, n: int)
    requires ' ' !in x && ' ' !in m && ' ' !in y
    ensures 0 <= n < |x + m + k + y| && (x + m + k + y)[n] == ' ' ==>
      |x| + |m| <= n < |x| + |m| + |k| && k[n - |x| - |m|] == ' '
  {
    var t := x + m + k + y;
    if 0 <= n < |t| {
      if n < |x| {
        assert t[n] == x[n];
      } else if n < |x| + |m| {
        assert t[n] == m[n - |x|];
      } else if n < |x| + |m| + |k| {
        assert t[n] == k[n - |x| - |m|];
      } else {
        assert t[n] == y[n - |x| - |m| - |k|];
      }
    }
  }

  /** In a text whose only spaces are those of one reference `m + k`, a
      reference `w + k`, with a marker as long as `m`, can only be that
      one. */
  lemma Anchored(x: string, m: string, k: string, y: string, w: string, p: int)
    requires |w| == |m| && ' ' !in m && ' ' in k && ' ' !in x && ' ' !in y
    ensures OccursAt(x + m + k + y, w + k, p) ==> p == |x| && w == m
  {
    var t := x + m + k + y;
    if OccursAt(t, w + k, p) {
      var f, g := FirstIndexOf(k, ' '), LastIndexOf(k, ' ');
      assert t[p + |w| + f] == (w + k)[|w| + f] == ' ';
      assert t[p + |w| + g] == (w + k)[|w| + g] == ' ';
      SpaceInReference(x, m, k, y, p + |w| + f);
      SpaceInReference(x, m, k, y, p + |w| + g);
      assert p == |x|;
      assert w == (w + k)[..|w|] == t[|x|..|x| + |m|] == m;
    }
  }

  /** Replacing `w + k` in a text holding the one reference `m + k`, in a
      context without spaces, rewrites that reference when the markers
      agree. */
  lemma ReplaceMatching(x: string, m: string, k: string, y: string, v: string)
    requires ' ' !in m && ' ' in k && ' ' !in x && ' ' !in y
    ensures ReplaceAll(x + m + k + y, m + k, m + v) == x + m + v + y
  {
    var q, t := m + k, x + m + k + y;
    assert t == x + q + y;
    forall p | 0 <= p < |x| ensures !OccursAt(t, q, p) {
      Anchored(x, m, k, y, m, p);
    }
    ContainsChars(y, q, ' ');
    ReplaceAllOnly(x, q, y, m + v);
    assert x + (m + v) + y == x + m + v + y;
  }

  /** ... and leaves the text alone when they differ. */
  lemma ReplaceOther(x: string, m: string, k: string, y: string, w: string, v: string)
    requires |w| == |m| && w != m && ' ' !in m && ' ' in k && ' ' !in x && ' ' !in y
    ensures ReplaceAll(x + m + k + y, w + k, w + v) == x + m + k + y
  {
    var t := x + m + k + y;
    forall p | 0 <= p <= |t| - |w + k| ensures !OccursAt(t, w + k, p) {
      Anchored(x, m, k, y, w, p);
    }
    ReplaceAllUnchanged(t, w + k, w + v);
  }

  /** One pass over a text holding a single reference `m + k` in a context
      without spaces rewrites exactly that reference. */
  lemma RetargetSingle(x: string, m: string, k: string, v: string, y: string)
    requires IsMarker(m) && ' ' in k && ' ' !in v && ' ' !in x && ' ' !in y
    ensures Retarget(x + m + k + y, (k, v)) == x + m + v + y
  {
    assert ' ' !in Param && ' ' !in Header && |Param| == |Header| && Param != Header;
    if m == Param {
      ReplaceMatching(x, m, k, y, v);
      var u := x + m + v + y;
      assert ' ' !in u;
      ContainsChars(u, Header + k, ' ');
      ReplaceAllUnchanged(u, Header + k, Header + v);
    } else {
      ReplaceOther(x, m, k, y, Param, v);
      ReplaceMatching(x, m, k, y, v);
    }
  }

  /** A text holding one reference to the `i`-th Windows name, with no space
      around it and no earlier Windows name in it, comes out with exactly
      that reference rewritten to the `i`-th IANA identifier, and the count
      is one. */
  lemma {:induction false} SingleReference(table: seq<Alias>, i: nat, x: string, m: string, y: string)
    requires SafeTable(table) && i < |table| && IsMarker(m) && ' ' !in x && ' ' !in y
    requires forall j :: 0 <= j < i ==> !Contains(x + m + table[i].0 + y, table[j].0)
    ensures RewriteAll(table, x + m + table[i].0 + y) == x + m + table[i].1 + y
    ensures Found(table, x + m + table[i].0 + y) == 1
    decreases i
  {
    var (k, v) := table[i];
    var t := x + m + k + y;
    SafeTableTail(table);
    if i == 0 {
      RetargetSingle(x, m, k, v, y);
      ContainsMiddle(x + m, k, y);
      var u := x + m + v + y;
      assert ' ' !in u;
      forall j | 0 <= j < |table| - 1 ensures !Contains(u, table[1..][j].0) {
        ContainsChars(u, table[1..][j].0, ' ');
      }
      NoNamesUnchanged(table[1..], u);
    } else {
      AbsentNameNoReference(t, table[0].0, Param);
      AbsentNameNoReference(t, table[0].0, Header);
      RetargetUnchanged(t, table[0]);
      assert table[1..][i - 1] == table[i];
      forall j | 0 <= j < i - 1 ensures !Contains(t, table[1..][j].0) {
        assert table[1..][j] == table[j + 1];
      }
      SingleReference(table[1..], i - 1, x, m, y);
    }
  }

  /** Rewriting works line by line: after a newline no reference can run on
      across the cut, and the left part still ends with its newline. */
  lemma RetargetAfterNewline(x: string, y: string, alias: Alias)
    requires SafeKey(alias.0) && SafeValue(alias.1)
    requires x != [] && x[|x| - 1] == '\n'
    ensures Retarget(x + y, alias) == Retarget(x, alias) + Retarget(y, alias)
    ensures var r := Retarget(x, alias); r != [] && r[|r| - 1] == '\n'
  {
    var (k, v) := alias;
    assert '\n' !in Param + k && '\n' !in Header + k;
    ReplaceAllAfterCut(x, y, Param + k, Param + v, '\n');
    var x1 := ReplaceAll(x, Param + k, Param + v);
    ReplaceAllAfterCut(x1, ReplaceAll(y, Param + k, Param + v), Header + k, Header + v, '\n');
  }

  lemma {:induction false} RewriteAllAfterNewline(table: seq<Alias>, x: string, y: string)
    requires forall i :: 0 <= i < |table| ==> SafeKey(table[i].0) && SafeValue(table[i].1)
    requires x != [] && x[|x| - 1] == '\n'
    ensures RewriteAll(table, x + y) == RewriteAll(table, x) + RewriteAll(table, y)
    decreases |table|
  {
    if table != [] {
      RetargetAfterNewline(x, y, table[0]);
      assert forall i :: 0 <= i < |table| - 1 ==> table[1..][i] == table[i + 1];
      RewriteAllAfterNewline(table[1..], Retarget(x, table[0]), Retarget(y, table[0]));
    }
  }

  /** A whole line holding no reference, for instance a description that
      names a Windows timezone in prose, passes through byte for byte. */
  lemma LineKeptVerbatim(table: seq<Alias>, pre: string, line: string, post: string)
    requires SafeTable(table)
    requires pre == [] || pre[|pre| - 1] == '\n'
    requires line != [] && line[|line| - 1] == '\n'
    requires NoReferences(table, line)
    ensures RewriteAll(table, pre + line + post) == RewriteAll(table, pre) + line + RewriteAll(table, post)
  {
    LineKeptFirst(table, line, post);
    if pre == [] {
      assert pre + line + post == line + post;
      RewriteAllEmpty(table);
    } else {
      assert pre + line + post == pre + (line + post);
      RewriteAllAfterNewline(table, pre, line + post);
    }
  }

  /** Nothing comes of nothing. */
  lemma {:induction false} RewriteAllEmpty(table: seq<Alias>)
    ensures RewriteAll(table, []) == []
    decreases |table|
  {
    if table != [] {
      var (k, v) := table[0];
      assert Retarget([], table[0]) == [];
      RewriteAllEmpty(table[1..]);
    }
  }

  /** `LineKeptVerbatim` for a line at the start of the text. */
  lemma LineKeptFirst(table: seq<Alias>, line: string, post: string)
    requires forall i :: 0 <= i < |table| ==> SafeKey(table[i].0) && SafeValue(table[i].1)
    requires line != [] && line[|line| - 1] == '\n'
    requires NoReferences(table, line)
    ensures RewriteAll(table, line + post) == line + RewriteAll(table, post)
  {
    NoReferencesUnchanged(table, line);
    RewriteAllAfterNewline(table, line, post);
  }

  /** `fix_ics` once the calendar text is in memory: walk the table, and for
      each alias whose Windows name occurs in the text rewrite both reference
      forms and count it. */
  method Rewrite(ics: string) returns (out: string, count: nat)
    ensures out == RewriteAll(TzMapping, ics)
    ensures count == Found(TzMapping, ics)
    ensures count <= 10
    ensures NoReferences(TzMapping, out)
    ensures (forall i :: 0 <= i < |TzMapping| ==> !Contains(ics, TzMapping[i].0)) ==> out == ics && count == 0
  {
    out, count := ics, 0;
    for i := 0 to |TzMapping|
      invariant RewriteAll(TzMapping[i..], out) == RewriteAll(TzMapping, ics)
      invariant count + Found(TzMapping[i..], out) == Found(TzMapping, ics)
    {
      var (msTz, ianaTz) := TzMapping[i];
      assert TzMapping[i..][1..] == TzMapping[i + 1..];
      if Contains(out, msTz) {
        out := ReplaceAll(out, Param + msTz, Param + ianaTz);
        out := ReplaceAll(out, Header + msTz, Header + ianaTz);
        count := count + 1;
      } else {
        AbsentNameNoReference(out, msTz, Param);
        AbsentNameNoReference(out, msTz, Header);
        RetargetUnchanged(out, TzMapping[i]);
      }
    }
    assert TzMapping[|TzMapping|..] == [];
    RewriteFacts(ics);
  }

  /** What the walk over the program's table guarantees. */
  lemma RewriteFacts(ics: string)
    ensures Found(TzMapping, ics) <= 10
    ensures NoReferences(TzMapping, RewriteAll(TzMapping, ics))
    ensures (forall i :: 0 <= i < |TzMapping| ==> !Contains(ics, TzMapping[i].0)) ==>
      RewriteAll(TzMapping, ics) == ics && Found(TzMapping, ics) == 0
  {
    TableShape();
    FoundBounded(TzMapping, ics);
    TableIsSafe();
    RewriteAllClears(TzMapping, ics);
    if forall i :: 0 <= i < |TzMapping| ==> !Contains(ics, TzMapping[i].0) {
      NoNamesUnchanged(TzMapping, ics);
    }
  }
}
