/**
 Byte strings as Go's `string` and `[]byte` hold them, and the parts of Go's
 `bytes` and `strings` packages that the server uses: `Index`, `Split`,
 `Fields` (ASCII white space only) and prefix tests. `Join` is the inverse of
 `Split` and is used only to state properties.
 */
module Bytes {
  import opened Wrappers

  /** One octet; a Dafny string literal of such characters is a byte string. */
  type byte = c: char | c as int < 256

  type Bytes = seq<byte>

  /** `sep` occurs in `s` starting at index `i`. */
  predicate OccursAt(s: Bytes, sep: Bytes, i: nat) {
    i + |sep| <= |s| && s[i..i + |sep|] == sep
  }

  /** `s` contains no occurrence of `sep`. */
  predicate Free(s: Bytes, sep: Bytes) {
    forall i: nat | i <= |s| :: !OccursAt(s, sep, i)
  }

  /** `s` contains no byte equal to `b`. */
  predicate Lacks(s: Bytes, b: byte) {
    forall i :: 0 <= i < |s| ==> s[i] != b
  }

  /** The first occurrence of `sep` in `s` at or after `from`. */
  function IndexFrom(s: Bytes, sep: Bytes, from: nat): (r: Option<nat>)
    requires |sep| > 0
    ensures r.Some? ==> from <= r.value && OccursAt(s, sep, r.value)
    decreases |s| - from
  {
    if from + |sep| > |s| then None
    else if s[from..from + |sep|] == sep then Some(from)
    else IndexFrom(s, sep, from + 1)
  }

  /** Go's `bytes.Index`: the leftmost occurrence of `sep` in `s`. */
  function Index(s: Bytes, sep: Bytes): (r: Option<nat>)
    requires |sep| > 0
    ensures r.Some? ==> OccursAt(s, sep, r.value)
  {
    IndexFrom(s, sep, 0)
  }

  /** No occurrence at or after `from` comes before the one `IndexFrom` finds. */
  lemma {:induction false} IndexFromIsFirst(s: Bytes, sep: Bytes, from: nat, j: nat)
    requires |sep| > 0 && from <= j
    requires IndexFrom(s, sep, from).None? || j < IndexFrom(s, sep, from).value
    ensures !OccursAt(s, sep, j)
    decreases |s| - from
  {
    if from + |sep| <= |s| && s[from..from + |sep|] != sep && from < j {
      IndexFromIsFirst(s, sep, from + 1, j);
    }
  }

  /**
   Go's `bytes.Split` and `strings.Split` for a non-empty separator: the pieces
   between every leftmost, non-overlapping occurrence of `sep`.
   */
  function Split(s: Bytes, sep: Bytes): (pieces: seq<Bytes>)
    requires |sep| > 0
    ensures |pieces| >= 1
    decreases |s|
  {
    match Index(s, sep)
    case None => [s]
    case Some(i) => [s[..i]] + Split(s[i + |sep|..], sep)
  }

  /** The pieces with `sep` between neighbours (Go's `strings.Join`). */
  function Join(pieces: seq<Bytes>, sep: Bytes): Bytes {
    if |pieces| == 0 then []
    else if |pieces| == 1 then pieces[0]
    else pieces[0] + sep + Join(pieces[1..], sep)
  }

  /** No occurrence of `sep` in `p + sep` starts inside `p`. */
  predicate NoEarlyOccurrence(p: Bytes, sep: Bytes) {
    forall j: nat :: j < |p| ==> !OccursAt(p + sep, sep, j)
  }

  lemma OccursInPrefix(s: Bytes, t: Bytes, sep: Bytes, j: nat)
    requires j + |sep| <= |s|
    ensures OccursAt(s + t, sep, j) <==> OccursAt(s, sep, j)
  {
    assert (s + t)[j..j + |sep|] == s[j..j + |sep|];
  }

  lemma OccursInSuffix(s: Bytes, t: Bytes, sep: Bytes, j: nat)
    ensures OccursAt(s + t, sep, |s| + j) <==> OccursAt(t, sep, j)
  {
    if |s| + j + |sep| <= |s + t| {
      assert (s + t)[|s| + j..|s| + j + |sep|] == t[j..j + |sep|];
    }
  }

  lemma JoinCons(p: Bytes, rest: seq<Bytes>, sep: Bytes)
    requires |rest| >= 1
    ensures Join([p] + rest, sep) == p + sep + Join(rest, sep)
  {
    assert ([p] + rest)[1..] == rest;
  }

  lemma {:induction false} JoinSplit(s: Bytes, sep: Bytes)
    requires |sep| > 0
    ensures Join(Split(s, sep), sep) == s
    decreases |s|
  {
    if Index(s, sep).Some? {
      var i := Index(s, sep).value;
      var rest := s[i + |sep|..];
      var pieces := Split(rest, sep);
      assert Join(pieces, sep) == rest by { JoinSplit(rest, sep); }
      assert Split(s, sep) == [s[..i]] + pieces;
      JoinCons(s[..i], pieces, sep);
      assert s[i..i + |sep|] == sep;
      assert s == s[..i] + s[i..i + |sep|] + rest;
    }
  }
  /** No piece produced by `Split` contains the separator. */
  lemma {:induction false} SplitPiecesFree(s: Bytes, sep: Bytes)
    requires |sep| > 0
    ensures forall k :: 0 <= k < |Split(s, sep)| ==> Free(Split(s, sep)[k], sep)
    decreases |s|
  {
    var r := Index(s, sep);
    if r.None? {
      forall j: nat | j <= |s| ensures !OccursAt(s, sep, j) {
        IndexFromIsFirst(s, sep, 0, j);
      }
    } else {
      var i := r.value;
      var rest := s[i + |sep|..];
      assert forall k :: 0 <= k < |Split(rest, sep)| ==> Free(Split(rest, sep)[k], sep) by {
        SplitPiecesFree(rest, sep);
      }
      forall j: nat | j <= i ensures !OccursAt(s[..i], sep, j) {
        if j + |sep| <= i {
          IndexFromIsFirst(s, sep, 0, j);
          OccursInPrefix(s[..i], s[i..], sep, j);
          assert s[..i] + s[i..] == s;
        }
      }
      assert Split(s, sep) == [s[..i]] + Split(rest, sep);
    }
  }

  /** `Split` has at least two pieces exactly when the separator occurs. */
  lemma SplitCount(s: Bytes, sep: Bytes)
    requires |sep| > 0
    ensures |Split(s, sep)| >= 2 <==> !Free(s, sep)
  {
    var r := Index(s, sep);
    if r.None? {
      forall j: nat | j <= |s| ensures !OccursAt(s, sep, j) {
        IndexFromIsFirst(s, sep, 0, j);
      }
    } else {
      assert OccursAt(s, sep, r.value);
    }
  }

  /** A prefix of input free of the separator is free of it too. */
  lemma FreePrefix(s: Bytes, sep: Bytes, m: nat)
    requires m <= |s| && Free(s, sep)
    ensures Free(s[..m], sep)
  {
    forall j: nat | j <= m ensures !OccursAt(s[..m], sep, j) {
      if j + |sep| <= m {
        OccursInPrefix(s[..m], s[m..], sep, j);
        assert s[..m] + s[m..] == s;
      }
    }
  }

  /** Input free of the separator is one piece. */
  lemma SplitFree(s: Bytes, sep: Bytes)
    requires |sep| > 0 && Free(s, sep)
    ensures Split(s, sep) == [s]
  {
    assert Index(s, sep).None?;
  }

  /** The first piece ends where the first separator starts. */
  lemma SplitFirst(p: Bytes, sep: Bytes, rest: Bytes)
    requires |sep| > 0 && NoEarlyOccurrence(p, sep)
    ensures Split(p + sep + rest, sep) == [p] + Split(rest, sep)
  {
    var s := p + sep + rest;
    assert s == (p + sep) + rest;
    OccursInPrefix(p + sep, rest, sep, |p|);
    assert (p + sep)[|p|..|p| + |sep|] == sep;
    if Index(s, sep).None? || |p| < Index(s, sep).value {
      IndexFromIsFirst(s, sep, 0, |p|);
    }
    var i := Index(s, sep).value;
    if i < |p| {
      OccursInPrefix(p + sep, rest, sep, i);
    }
    assert i == |p|;
    assert s[..i] == p;
    assert s[i + |sep|..] == rest;
  }

  /** A byte that differs from the separator's rules out an occurrence. */
  lemma NotOccursAt(s: Bytes, sep: Bytes, j: nat, t: nat)
    requires t < |sep| && j + t < |s| && s[j + t] != sep[t]
    ensures !OccursAt(s, sep, j)
  {
    if j + |sep| <= |s| {
      assert s[j..j + |sep|][t] == s[j + t];
    }
  }

  /** A piece lacking the separator's first byte cannot hold or start an occurrence. */
  lemma LacksLeadNoOccurrence(p: Bytes, sep: Bytes)
    requires |sep| > 0 && Lacks(p, sep[0])
    ensures NoEarlyOccurrence(p, sep) && Free(p, sep)
  {
    forall j: nat | j < |p| ensures !OccursAt(p + sep, sep, j) {
      assert (p + sep)[j] == p[j];
    }
    forall j: nat | j <= |p| ensures !OccursAt(p, sep, j) {
      if j < |p| {
        assert p[j] != sep[0];
      }
    }
  }

  /** Re-splitting joined pieces recovers them when no piece holds the separator's first byte. */
  lemma {:induction false} SplitJoin(pieces: seq<Bytes>, sep: Bytes)
    requires |sep| > 0 && |pieces| >= 1
    requires forall k :: 0 <= k < |pieces| ==> Lacks(pieces[k], sep[0])
    ensures Split(Join(pieces, sep), sep) == pieces
    decreases |pieces|
  {
    LacksLeadNoOccurrence(pieces[0], sep);
    if |pieces| == 1 {
      SplitFree(pieces[0], sep);
    } else {
      var rest := pieces[1..];
      assert Split(Join(rest, sep), sep) == rest by {
        forall k | 0 <= k < |rest| ensures Lacks(rest[k], sep[0]) {
          assert rest[k] == pieces[k + 1];
        }
        SplitJoin(rest, sep);
      }
      assert Join(pieces, sep) == pieces[0] + sep + Join(rest, sep);
      SplitFirst(pieces[0], sep, Join(rest, sep));
      assert pieces == [pieces[0]] + rest;
    }
  }

  /** ASCII white space as Go's `unicode.IsSpace` sees it. */
  predicate IsSpace(b: byte) {
    b == ' ' || b == '\t' || b == '\n' || b == '\r' || b == '\U{0B}' || b == '\U{0C}'
  }

  predicate IsToken(t: Bytes) {
    |t| > 0 && forall i :: 0 <= i < |t| ==> !IsSpace(t[i])
  }

  /** Length of the run of non-space bytes at the start of `s`. */
  function TokenLength(s: Bytes): (n: nat)
    ensures n <= |s|
    ensures forall i :: 0 <= i < n ==> !IsSpace(s[i])
    ensures n < |s| ==> IsSpace(s[n])
  {
    if s == [] || IsSpace(s[0]) then 0 else 1 + TokenLength(s[1..])
  }

  /** Go's `strings.Fields`: the maximal runs of non-space bytes, in order. */
  function Fields(s: Bytes): (fs: seq<Bytes>)
    ensures forall k :: 0 <= k < |fs| ==> IsToken(fs[k])
    decreases |s|
  {
    if s == [] then []
    else if IsSpace(s[0]) then Fields(s[1..])
    else
      var n := TokenLength(s);
      [s[..n]] + Fields(s[n..])
  }

  /** A white-space byte separates the fields on its two sides. */
  lemma {:induction false} FieldsAroundSpace(a: Bytes, sp: byte, b: Bytes)
    requires IsSpace(sp)
    ensures Fields(a + [sp] + b) == Fields(a) + Fields(b)
    decreases |a|
  {
    var s := a + [sp] + b;
    if a == [] {
      assert s[1..] == b;
    } else if IsSpace(a[0]) {
      FieldsAroundSpace(a[1..], sp, b);
      assert s[1..] == a[1..] + [sp] + b;
    } else {
      var n := TokenLength(a);
      TokenLengthPrefix(a, [sp] + b);
      assert s == a + ([sp] + b);
      assert s[..n] == a[..n];
      FieldsAroundSpace(a[n..], sp, b);
      assert s[n..] == a[n..] + [sp] + b;
    }
  }

  lemma {:induction false} TokenLengthPrefix(a: Bytes, t: Bytes)
    requires TokenLength(a) < |a| || (t != [] && IsSpace(t[0]))
    ensures TokenLength(a + t) == TokenLength(a)
    decreases |a|
  {
    if a == [] {
    } else if IsSpace(a[0]) {
    } else {
      TokenLengthPrefix(a[1..], t);
      assert (a + t)[1..] == a[1..] + t;
    }
  }

  /** A single token is its own only field. */
  lemma {:induction false} FieldsOfToken(t: Bytes)
    requires IsToken(t)
    ensures Fields(t) == [t]
  {
    TokenLengthAll(t);
    assert t[..|t|] == t;
    assert t[|t|..] == [];
  }

  lemma {:induction false} TokenLengthAll(t: Bytes)
    requires forall i :: 0 <= i < |t| ==> !IsSpace(t[i])
    ensures TokenLength(t) == |t|
    decreases |t|
  {
    if t != [] {
      TokenLengthAll(t[1..]);
    }
  }

  /** Tokens joined by single spaces split back into the same tokens. */
  lemma {:induction false} FieldsOfJoin(tokens: seq<Bytes>)
    requires forall k :: 0 <= k < |tokens| ==> IsToken(tokens[k])
    ensures Fields(Join(tokens, " ")) == tokens
    decreases |tokens|
  {
    if |tokens| == 1 {
      FieldsOfToken(tokens[0]);
    } else if |tokens| > 1 {
      FieldsOfJoin(tokens[1..]);
      FieldsOfToken(tokens[0]);
      FieldsAroundSpace(tokens[0], ' ', Join(tokens[1..], " "));
      assert tokens == [tokens[0]] + tokens[1..];
    }
  }
}
