/**
 * The e-mail format check of the contact form: the regular expression
 * `^[^\s@]+@[^\s@]+\.[^\s@]+$` tested against a whole string.
 *
 * The expression is modelled as the deterministic automaton a regular-expression engine
 * compiles it to (`Run` from `Start`), and is proved to accept exactly the strings of the
 * shape local part, `@`, domain, `.`, tail, with all three parts non-empty and free of
 * whitespace and of `@`. Dots may occur anywhere in the three parts: the check is a loose
 * shape test, not an address grammar.
 */
module EmailFormat {
  import opened Text

  /** A character of the class `[^\s@]`. */
  predicate Clean(c: char) {
    !IsWhitespace(c) && c != '@'
  }

  predicate AllClean(s: string) {
    forall k :: 0 <= k < |s| ==> Clean(s[k])
  }

  /** A match of `[^\s@]+`. */
  predicate Part(s: string) {
    |s| > 0 && AllClean(s)
  }

  /** `s` is `l + "@" + d + "." + t` with each of the three parts a match of `[^\s@]+`. */
  ghost predicate SplitsAs(s: string, l: string, d: string, t: string) {
    s == l + "@" + d + "." + t && Part(l) && Part(d) && Part(t)
  }

  /** The shape the expression describes. */
  ghost predicate EmailShape(s: string) {
    exists l, d, t :: SplitsAs(s, l, d, t)
  }

  /** Where the automaton stands after a prefix of the input. */
  datatype Phase =
    | Start      // nothing read
    | Local      // one or more characters of the local part
    | AfterAt    // the local part and the `@`
    | Domain     // at least one domain character since the `@`, no usable dot pending
    | AfterDot   // a dot with at least one domain character before it, nothing after it yet
    | Tail       // a usable dot followed by one or more characters: accepting
    | Reject     // a character no continuation can accept

  function Step(p: Phase, c: char): Phase {
    match p
    case Start => if Clean(c) then Local else Reject
    case Local => if Clean(c) then Local else if c == '@' then AfterAt else Reject
    case AfterAt => if Clean(c) then Domain else Reject
    case Domain => if c == '.' then AfterDot else if Clean(c) then Domain else Reject
    case AfterDot => if Clean(c) then Tail else Reject
    case Tail => if Clean(c) then Tail else Reject
    case Reject => Reject
  }

  function Run(p: Phase, s: string): Phase
    decreases |s|
  {
    if s == [] then p else Run(Step(p, s[0]), s[1..])
  }

  /**
   * `isValidEmail`: the anchored expression matches the whole string, which is the case
   * exactly when the string has the shape local part, `@`, domain, `.`, tail.
   */
  predicate IsValidEmail(s: string)
    ensures IsValidEmail(s) <==> EmailShape(s)
  {
    RunAcceptsIffShape(s);
    Run(Start, s) == Tail
  }

  /** A dot in `s` at a position from `lo` on that is not the last character. */
  ghost predicate DotBeforeEnd(s: string, lo: nat) {
    exists j :: lo <= j < |s| - 1 && s[j] == '.'
  }

  lemma {:induction false} RunRejects(s: string)
    ensures Run(Reject, s) == Reject
    decreases |s|
  {
    if s != [] {
      RunRejects(s[1..]);
    }
  }

  lemma {:induction false} RunTail(s: string)
    ensures Run(Tail, s) == Tail <==> AllClean(s)
    decreases |s|
  {
    if s != [] {
      if Clean(s[0]) {
        RunTail(s[1..]);
        assert AllClean(s) <==> AllClean(s[1..]) by {
          if AllClean(s[1..]) {
            forall k | 0 < k < |s| ensures Clean(s[k]) { assert s[k] == s[1..][k - 1]; }
          }
        }
      } else {
        RunRejects(s[1..]);
      }
    }
  }

  lemma RunAfterDot(s: string)
    ensures Run(AfterDot, s) == Tail <==> Part(s)
  {
    if s != [] {
      if Clean(s[0]) {
        RunTail(s[1..]);
        if AllClean(s[1..]) {
          forall k | 0 < k < |s| ensures Clean(s[k]) { assert s[k] == s[1..][k - 1]; }
        }
      } else {
        RunRejects(s[1..]);
      }
    }
  }

  lemma {:induction false} RunDomain(s: string)
    ensures Run(Domain, s) == Tail <==> AllClean(s) && DotBeforeEnd(s, 0)
    decreases |s|
  {
    if s == [] {
      return;
    }
    var r := s[1..];
    assert AllClean(s) <==> Clean(s[0]) && AllClean(r) by {
      if Clean(s[0]) && AllClean(r) {
        forall k | 0 < k < |s| ensures Clean(s[k]) { assert s[k] == r[k - 1]; }
      }
    }
    if s[0] == '.' {
      RunAfterDot(r);
      if |r| > 0 {
        assert s[0] == '.' && 0 < |s| - 1;
      } else {
        assert !DotBeforeEnd(s, 0);
      }
    } else if Clean(s[0]) {
      RunDomain(r);
      if DotBeforeEnd(s, 0) {
        var j :| 0 <= j < |s| - 1 && s[j] == '.';
        assert r[j - 1] == '.';
      }
      if DotBeforeEnd(r, 0) {
        var j :| 0 <= j < |r| - 1 && r[j] == '.';
        assert s[j + 1] == '.';
      }
    } else {
      RunRejects(r);
    }
  }

  lemma RunAfterAt(s: string)
    ensures Run(AfterAt, s) == Tail <==> AllClean(s) && DotBeforeEnd(s, 1)
  {
    if s == [] {
      return;
    }
    var r := s[1..];
    assert AllClean(s) <==> Clean(s[0]) && AllClean(r) by {
      if Clean(s[0]) && AllClean(r) {
        forall k | 0 < k < |s| ensures Clean(s[k]) { assert s[k] == r[k - 1]; }
      }
    }
    if Clean(s[0]) {
      RunDomain(r);
      if DotBeforeEnd(s, 1) {
        var j :| 1 <= j < |s| - 1 && s[j] == '.';
        assert r[j - 1] == '.';
      }
      if DotBeforeEnd(r, 0) {
        var j :| 0 <= j < |r| - 1 && r[j] == '.';
        assert s[j + 1] == '.';
      }
    } else {
      RunRejects(r);
    }
  }

  /** The `@` at position `i` ends a local part (possibly empty here) and starts an acceptable domain-and-tail. */
  ghost predicate AtSplit(s: string, i: nat) {
    i < |s| && s[i] == '@' && AllClean(s[..i]) && AllClean(s[i + 1..]) && DotBeforeEnd(s[i + 1..], 1)
  }

  lemma AllCleanConcat(a: string, b: string)
    ensures AllClean(a + b) <==> AllClean(a) && AllClean(b)
  {
    if AllClean(a + b) {
      forall k | 0 <= k < |a| ensures Clean(a[k]) { assert a[k] == (a + b)[k]; }
      forall k | 0 <= k < |b| ensures Clean(b[k]) { assert b[k] == (a + b)[|a| + k]; }
    }
  }

  /** An `@` split of `r` at `i` is an `@` split of `[c] + r` at `i + 1` when `c` is clean. */
  lemma AtSplitShift(c: char, r: string, i: nat)
    requires Clean(c)
    ensures AtSplit([c] + r, i + 1) <==> AtSplit(r, i)
  {
    var s := [c] + r;
    if i < |r| {
      assert s[..i + 1] == [c] + r[..i];
      assert s[i + 2..] == r[i + 1..];
      AllCleanConcat([c], r[..i]);
    }
  }

  /** No `@` split puts an `@` after a character that is neither clean nor `@`. */
  lemma NoAtSplitAfterDirt(s: string, i: nat)
    requires s != [] && !Clean(s[0])
    requires 0 < i
    ensures !AtSplit(s, i)
  {
    if i < |s| {
      assert s[..i][0] == s[0];
    }
  }

  lemma {:induction false} RunLocal(s: string)
    ensures Run(Local, s) == Tail <==> exists i :: AtSplit(s, i)
    decreases |s|
  {
    if s == [] {
      return;
    }
    var r := s[1..];
    assert s == [s[0]] + r;
    if s[0] == '@' {
      RunAfterAt(r);
      assert s[..0] == [];
      if Run(Local, s) == Tail {
        assert AtSplit(s, 0);
      }
      forall i: nat | 0 < i ensures !AtSplit(s, i) {
        NoAtSplitAfterDirt(s, i);
      }
    } else if Clean(s[0]) {
      RunLocal(r);
      if exists i :: AtSplit(r, i) {
        var i: nat :| AtSplit(r, i);
        AtSplitShift(s[0], r, i);
      }
      if exists i :: AtSplit(s, i) {
        var i: nat :| AtSplit(s, i);
        assert i > 0;
        AtSplitShift(s[0], r, i - 1);
      }
    } else {
      RunRejects(r);
      forall i: nat ensures !AtSplit(s, i) {
        if i > 0 { NoAtSplitAfterDirt(s, i); }
      }
    }
  }

  /** The automaton accepts exactly the strings with an `@` after a non-empty local part and before an acceptable domain-and-tail. */
  lemma RunStart(s: string)
    ensures Run(Start, s) == Tail <==> exists i :: 0 < i && AtSplit(s, i)
  {
    if s == [] {
      return;
    }
    var r := s[1..];
    assert s == [s[0]] + r;
    if Clean(s[0]) {
      RunLocal(r);
      if exists i :: AtSplit(r, i) {
        var i: nat :| AtSplit(r, i);
        AtSplitShift(s[0], r, i);
      }
      if exists i :: 0 < i && AtSplit(s, i) {
        var i: nat :| 0 < i && AtSplit(s, i);
        AtSplitShift(s[0], r, i - 1);
      }
    } else {
      RunRejects(r);
      forall i: nat | 0 < i ensures !AtSplit(s, i) {
        NoAtSplitAfterDirt(s, i);
      }
    }
  }

  /** An `@` split with a non-empty local part gives the three parts of the shape. */
  lemma AtSplitGivesShape(s: string, i: nat)
    requires 0 < i && AtSplit(s, i)
    ensures EmailShape(s)
  {
    var rest := s[i + 1..];
    var j :| 1 <= j < |rest| - 1 && rest[j] == '.';
    var l, d, t := s[..i], rest[..j], rest[j + 1..];
    assert rest == d + "." + t;
    AllCleanConcat(d, "." + t);
    AllCleanConcat(".", t);
    assert s == l + "@" + rest;
    assert SplitsAs(s, l, d, t);
  }

  /** The three parts of the shape give an `@` split after the local part. */
  lemma ShapeGivesAtSplit(s: string, l: string, d: string, t: string)
    requires SplitsAs(s, l, d, t)
    ensures 0 < |l| && AtSplit(s, |l|)
  {
    var i := |l|;
    var rest := d + "." + t;
    assert s == l + "@" + rest;
    assert s[..i] == l;
    assert s[i + 1..] == rest;
    AllCleanConcat(d, "." + t);
    AllCleanConcat(".", t);
    assert rest[|d|] == '.';
  }

  /** An `@` split with a non-empty local part exists exactly when the string has the shape. */
  lemma AtSplitIffShape(s: string)
    ensures (exists i :: 0 < i && AtSplit(s, i)) <==> EmailShape(s)
  {
    if exists i :: 0 < i && AtSplit(s, i) {
      var i: nat :| 0 < i && AtSplit(s, i);
      AtSplitGivesShape(s, i);
    }
    if EmailShape(s) {
      var l, d, t :| SplitsAs(s, l, d, t);
      ShapeGivesAtSplit(s, l, d, t);
    }
  }

  /** The automaton ends in its accepting state exactly when `s` has the shape local part, `@`, domain, `.`, tail. */
  lemma RunAcceptsIffShape(s: string)
    ensures Run(Start, s) == Tail <==> EmailShape(s)
  {
    RunStart(s);
    AtSplitIffShape(s);
  }

  /** A string that passes the check has no whitespace at all and exactly one `@`. */
  lemma ValidEmailHasOneAt(s: string)
    requires IsValidEmail(s)
    ensures forall k :: 0 <= k < |s| ==> !IsWhitespace(s[k])
    ensures exists i :: 0 < i < |s| - 1 && s[i] == '@' && forall k :: 0 <= k < |s| && k != i ==> s[k] != '@'
  {
    RunStart(s);
    var i: nat :| 0 < i && AtSplit(s, i);
    forall k | 0 <= k < |s| && k != i ensures !IsWhitespace(s[k]) && s[k] != '@' {
      if k < i { assert s[k] == s[..i][k]; } else { assert s[k] == s[i + 1..][k - i - 1]; }
    }
  }

  /** `a@b.com` passes the check. */
  lemma AcceptsPlainAddress()
    ensures IsValidEmail("a@b.com") && EmailShape("a@b.com")
  {
    assert SplitsAs("a@b.com", "a", "b", "com");
  }

  /** `jo@x.com` passes the check. */
  lemma AcceptsSampleAddress()
    ensures IsValidEmail("jo@x.com")
  {
    assert SplitsAs("jo@x.com", "jo", "x", "com");
  }

  /** `a@b` fails the check: nothing after the `@` holds a dot. */
  lemma RejectsMissingDot()
    ensures !IsValidEmail("a@b") && !EmailShape("a@b")
  {
    var s := "a@b";
    assert Run(Start, s) == Run(Local, s[1..]);
    assert Run(Local, s[1..]) == Run(AfterAt, s[2..]);
    assert Run(AfterAt, s[2..]) == Run(Domain, s[3..]);
  }

  /** `a b@c.com` fails the check: the local part holds a space. */
  lemma RejectsInnerSpace()
    ensures !IsValidEmail("a b@c.com") && !EmailShape("a b@c.com")
  {
    var s := "a b@c.com";
    assert Run(Start, s) == Run(Local, s[1..]);
    assert Run(Local, s[1..]) == Run(Reject, s[2..]);
    RunRejects(s[2..]);
  }
}
