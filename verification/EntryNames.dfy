/** Canonical entry names: what the archive walk compares names by, and which names it calls an escape. */
module EntryNames {
  import opened Bytes

  const SLASH: byte := 0x2f
  const BACKSLASH: byte := 0x5c
  const COLON: byte := 0x3a
  const DOT: byte := 0x2e

  predicate IsSeparator(c: byte) { c == SLASH || c == BACKSLASH }

  function Lower(c: byte): byte { if 0x41 <= c <= 0x5a then c + 0x20 else c }

  function LowerAll(s: seq<byte>): (r: seq<byte>)
    ensures |r| == |s|
  {
    seq(|s|, i requires 0 <= i < |s| => Lower(s[i]))
  }

  // ---- the meaning ---------------------------------------------------------------------------

  /** The parts between separators, empty ones included. */
  function Split(s: seq<byte>): (r: seq<seq<byte>>)
    ensures r != []
  {
    if s == [] then [[]]
    else
      var rest := Split(s[1..]);
      if IsSeparator(s[0]) then [[]] + rest else [[s[0]] + rest[0]] + rest[1..]
  }

  /** The non-empty parts in lower case. */
  function Clean(parts: seq<seq<byte>>): seq<seq<byte>> {
    if parts == [] then []
    else
      var last := |parts| - 1;
      Clean(parts[..last]) + (if parts[last] == [] then [] else [LowerAll(parts[last])])
  }

  /** The parts separated by single slashes. */
  function Join(parts: seq<seq<byte>>): seq<byte> {
    if parts == [] then []
    else
      var last := |parts| - 1;
      var front := Join(parts[..last]);
      (if front == [] then [] else front + [SLASH]) + parts[last]
  }

  predicate IsDots(part: seq<byte>) { part == [DOT] || part == [DOT, DOT] }

  predicate NoDots(parts: seq<seq<byte>>) { forall i | 0 <= i < |parts| :: !IsDots(parts[i]) }

  predicate PlainBytes(s: seq<byte>) { forall i | 0 <= i < |s| :: s[i] >= 0x20 && s[i] != COLON }

  /** Relative, free of control characters, colons and dot parts, and not all separators. */
  predicate Safe(name: seq<byte>) {
    && name != [] && !IsSeparator(name[0]) && PlainBytes(name) && NoDots(Split(name))
  }

  function Canonical(name: seq<byte>): Option<seq<byte>> {
    if !Safe(name) then None else Some(Join(Clean(Split(name))))
  }

  // ---- the algorithm -------------------------------------------------------------------------

  predicate PartBytes(s: seq<byte>) { forall i | 0 <= i < |s| :: !IsSeparator(s[i]) }

  lemma {:induction false} SplitStep(s: seq<byte>, n: nat)
    requires n <= |s| && PartBytes(s[..n])
    ensures n == |s| ==> Split(s) == [s]
    ensures n < |s| && IsSeparator(s[n]) ==> Split(s) == [s[..n]] + Split(s[n + 1..])
    decreases n
  {
    if n == 0 {
      assert s[..0] == [];
    } else {
      assert s[..n][0] == s[0];
      assert s[1..][..n - 1] == s[..n][1..];
      SplitStep(s[1..], n - 1);
      assert [s[0]] + s[1..] == s;
      if n < |s| && IsSeparator(s[n]) {
        assert s[1..][n - 1 + 1..] == s[n + 1..];
        assert [s[0]] + s[1..][..n - 1] == s[..n];
        assert ([s[1..][..n - 1]] + Split(s[n + 1..]))[1..] == Split(s[n + 1..]);
      }
    }
  }

  /** One more part joins the result. */
  lemma CleanSnoc(done: seq<seq<byte>>, part: seq<byte>)
    ensures Clean(done + [part]) == Clean(done) + (if part == [] then [] else [LowerAll(part)])
    ensures Join(Clean(done + [part])) ==
      if part == [] then Join(Clean(done))
      else (if Join(Clean(done)) == [] then [] else Join(Clean(done)) + [SLASH]) + LowerAll(part)
  {
    assert (done + [part])[..|done|] == done;
    if part != [] {
      var c := Clean(done);
      assert (c + [LowerAll(part)])[..|c|] == c;
    } else {
      assert Clean(done) + [] == Clean(done);
    }
  }

  /** Everything before `index` has been read; the parts in `done` are complete. */
  ghost predicate Scanned(name: seq<byte>, done: seq<seq<byte>>, start: nat, index: nat) {
    && start <= index
    && (forall k | 0 <= k < index && k < |name| :: name[k] >= 0x20 && name[k] != COLON)
    && (if index <= |name|
        then PartBytes(name[start..index]) && Split(name) == done + Split(name[start..])
        else Split(name) == done)
  }

  lemma ScanByte(name: seq<byte>, done: seq<seq<byte>>, start: nat, index: nat)
    requires index < |name| && Scanned(name, done, start, index)
    requires name[index] >= 0x20 && name[index] != COLON && !IsSeparator(name[index])
    ensures Scanned(name, done, start, index + 1)
  {
    assert name[start..index + 1] == name[start..index] + [name[index]];
  }

  lemma ScanSeparator(name: seq<byte>, done: seq<seq<byte>>, start: nat, index: nat)
    requires index <= |name| && Scanned(name, done, start, index)
    requires index < |name| ==> IsSeparator(name[index])
    ensures Scanned(name, done + [name[start..index]], index + 1, index + 1)
    ensures |done| < |Split(name)| && Split(name)[|done|] == name[start..index]
  {
    hide Split;
    var segment := name[start..index];
    assert name[start..][..index - start] == segment;
    SplitStep(name[start..], index - start);
    if index < |name| {
      assert name[start..][index - start + 1..] == name[index + 1..];
      assert done + ([segment] + Split(name[index + 1..])) == (done + [segment]) + Split(name[index + 1..]);
      assert name[index + 1..index + 1] == [];
    } else {
      assert name[start..] == segment;
    }
  }

  /** Adds one part to the result. */
  method AddPart(result: seq<byte>, segment: seq<byte>, ghost done: seq<seq<byte>>) returns (r: seq<byte>)
    requires result == Join(Clean(done))
    ensures r == Join(Clean(done + [segment]))
  {
    hide Join, Clean, LowerAll;
    CleanSnoc(done, segment);
    r := result;
    if segment != [] {
      if result != [] { r := r + [SLASH]; }
      r := r + LowerAll(segment);
    }
  }

  lemma NoDotsSnoc(done: seq<seq<byte>>, segment: seq<byte>)
    requires NoDots(done) && !IsDots(segment)
    ensures NoDots(done + [segment])
  {
  }

  /** Reads the parts in order; fails on the first byte or part that is not allowed. */
  method ScanParts(name: seq<byte>) returns (r: Option<seq<byte>>)
    ensures r.None? ==> !(PlainBytes(name) && NoDots(Split(name)))
    ensures r.Some? ==> PlainBytes(name) && NoDots(Split(name)) && r.value == Join(Clean(Split(name)))
  {
    var result: seq<byte> := [];
    var start := 0;
    ghost var done: seq<seq<byte>> := [];
    assert Scanned(name, done, 0, 0) by { assert name[0..] == name; }
    EmptyJoin();
    hide Scanned, Split, Clean, Join, NoDots, PlainBytes, IsDots;
    for index := 0 to |name| + 1
      invariant start <= index && Scanned(name, done, start, index)
      invariant NoDots(done) && result == Join(Clean(done))
    {
      var separator := index == |name| || name[index] == SLASH || name[index] == BACKSLASH;
      if !separator {
        if name[index] == 0 || name[index] < 0x20 || name[index] == COLON {
          BadByte(name, index);
          return None;
        }
        ScanByte(name, done, start, index);
      } else {
        var segment := name[start..index];
        ScanSeparator(name, done, start, index);
        if IsDots(segment) {
          BadPart(Split(name), |done|);
          return None;
        }
        NoDotsSnoc(done, segment);
        result := AddPart(result, segment, done);
        done := done + [segment];
        start := index + 1;
      }
    }
    ScanEnd(name, done, start);
    return Some(result);
  }

  method CanonicalName(name: seq<byte>) returns (r: Option<seq<byte>>)
    ensures r == Canonical(name)
  {
    if name == [] || name[0] == SLASH || name[0] == BACKSLASH { return None; }
    hide Split, Clean, Join, PlainBytes, NoDots;
    r := ScanParts(name);
    FirstPart(name);
    if r == Some([]) { return None; }
  }

  lemma BadByte(name: seq<byte>, i: nat)
    requires i < |name| && (name[i] < 0x20 || name[i] == COLON)
    ensures !PlainBytes(name)
  {
  }

  lemma BadPart(parts: seq<seq<byte>>, i: nat)
    requires i < |parts| && IsDots(parts[i])
    ensures !NoDots(parts)
  {
  }

  lemma EmptyJoin()
    ensures Join(Clean([])) == [] && NoDots([])
  {
  }

  lemma ScanEnd(name: seq<byte>, done: seq<seq<byte>>, start: nat)
    requires Scanned(name, done, start, |name| + 1)
    ensures PlainBytes(name) && Split(name) == done
  {
  }

  /** A name that does not begin with a separator has a non-empty part. */
  lemma {:induction false} JoinNonEmpty(parts: seq<seq<byte>>)
    requires parts != [] && parts[0] != []
    ensures Join(Clean(parts)) != []
    decreases |parts|
  {
    var last := |parts| - 1;
    assert parts == parts[..last] + [parts[last]];
    CleanSnoc(parts[..last], parts[last]);
    if last > 0 {
      JoinNonEmpty(parts[..last]);
    } else {
      assert parts[..0] == [];
    }
  }

  lemma FirstPart(name: seq<byte>)
    requires name != [] && !IsSeparator(name[0])
    ensures Split(name)[0] != [] && Join(Clean(Split(name))) != []
  {
    JoinNonEmpty(Split(name));
  }

  // ---- what a canonical name is --------------------------------------------------------------

  predicate IsCleanPart(part: seq<byte>) {
    && part != [] && PartBytes(part) && PlainBytes(part) && !IsDots(part)
    && forall i | 0 <= i < |part| :: !(0x41 <= part[i] <= 0x5a)
  }

  predicate AllClean(parts: seq<seq<byte>>) { forall i | 0 <= i < |parts| :: IsCleanPart(parts[i]) }

  lemma {:induction false} SplitParts(s: seq<byte>)
    requires PlainBytes(s)
    ensures forall i | 0 <= i < |Split(s)| :: PartBytes(Split(s)[i]) && PlainBytes(Split(s)[i])
  {
    if s != [] {
      assert forall i | 0 <= i < |s[1..]| :: s[1..][i] == s[i + 1];
      SplitParts(s[1..]);
    }
  }

  lemma CleanOne(part: seq<byte>)
    requires PartBytes(part) && PlainBytes(part) && !IsDots(part) && part != []
    ensures IsCleanPart(LowerAll(part))
  {
    if IsDots(LowerAll(part)) {
      assert forall i | 0 <= i < |part| :: Lower(part[i]) == LowerAll(part)[i] == DOT;
    }
  }

  lemma {:induction false} CleanParts(parts: seq<seq<byte>>)
    requires forall i | 0 <= i < |parts| :: PartBytes(parts[i]) && PlainBytes(parts[i]) && !IsDots(parts[i])
    ensures AllClean(Clean(parts))
  {
    if parts != [] {
      var last := |parts| - 1;
      CleanParts(parts[..last]);
      if parts[last] != [] { CleanOne(parts[last]); }
    }
  }

  lemma {:induction false} CleanFixed(parts: seq<seq<byte>>)
    requires AllClean(parts)
    ensures Clean(parts) == parts
  {
    if parts != [] {
      var last := |parts| - 1;
      CleanFixed(parts[..last]);
      assert LowerAll(parts[last]) == parts[last];
    }
  }

  lemma {:induction false} SplitConcat(a: seq<byte>, part: seq<byte>)
    requires PartBytes(part)
    ensures Split(a + [SLASH] + part) == Split(a) + [part]
  {
    if a == [] {
      assert (a + [SLASH] + part)[1..] == part;
      assert part[..|part|] == part;
      SplitStep(part, |part|);
      assert Split([]) == [[]];
    } else {
      SplitConcat(a[1..], part);
      assert (a + [SLASH] + part)[1..] == a[1..] + [SLASH] + part;
      var rest := Split(a[1..]);
      assert (rest + [part])[0] == rest[0] && (rest + [part])[1..] == rest[1..] + [part];
    }
  }

  /** Joining loses nothing: the parts can be read off again. */
  lemma {:induction false} SplitJoin(parts: seq<seq<byte>>)
    requires parts != [] && AllClean(parts)
    ensures Split(Join(parts)) == parts && Join(parts) != []
    decreases |parts|
  {
    var last := |parts| - 1;
    if last == 0 {
      assert parts[..0] == [] && parts == [parts[0]];
      assert Join(parts) == parts[0];
      assert parts[0][..|parts[0]|] == parts[0];
      SplitStep(parts[0], |parts[0]|);
    } else {
      SplitJoin(parts[..last]);
      SplitConcat(Join(parts[..last]), parts[last]);
      assert parts == parts[..last] + [parts[last]];
    }
  }

  /** The parts of a canonical name are exactly the cleaned parts of the name it came from. */
  lemma CanonicalParts(name: seq<byte>)
    requires Canonical(name).Some?
    ensures AllClean(Clean(Split(name))) && Clean(Split(name)) != []
    ensures Split(Canonical(name).value) == Clean(Split(name))
  {
    SplitParts(name);
    CleanParts(Split(name));
    FirstPart(name);
    SplitJoin(Clean(Split(name)));
  }

  /** No canonical name can leave the directory it is joined to: it has no dot part, root, drive or backslash. */
  lemma CanonicalIsConfined(name: seq<byte>)
    requires Canonical(name).Some?
    ensures var c := Canonical(name).value;
      Safe(c) && BACKSLASH !in c && AllClean(Split(c))
  {
    var c := Canonical(name).value;
    CanonicalParts(name);
    PartsBytes(Split(c));
    hide Split, Clean, AllClean;
    JoinBytes(Clean(Split(name)));
  }

  lemma PartsBytes(parts: seq<seq<byte>>)
    requires AllClean(parts)
    ensures NoDots(parts)
  {
  }

  lemma {:induction false} JoinBytes(parts: seq<seq<byte>>)
    requires AllClean(parts) && parts != []
    ensures PlainBytes(Join(parts)) && BACKSLASH !in Join(parts)
    ensures Join(parts) != [] && !IsSeparator(Join(parts)[0])
    decreases |parts|
  {
    var last := |parts| - 1;
    assert parts[last][0] == parts[last][0];
    if last > 0 { JoinBytes(parts[..last]); } else { assert parts[..0] == []; }
  }

  /** Canonical names are their own canonical names. */
  lemma CanonicalIdempotent(name: seq<byte>)
    requires Canonical(name).Some?
    ensures Canonical(Canonical(name).value) == Canonical(name)
  {
    CanonicalParts(name);
    CanonicalIsConfined(name);
    hide Split, Safe, AllClean;
    CleanFixed(Clean(Split(name)));
  }

  /** Two names are duplicates exactly when their non-empty parts agree up to ASCII case. */
  lemma DuplicatesExact(a: seq<byte>, b: seq<byte>)
    requires Canonical(a).Some? && Canonical(b).Some?
    ensures Canonical(a) == Canonical(b) <==> Clean(Split(a)) == Clean(Split(b))
  {
    CanonicalParts(a);
    CanonicalParts(b);
  }

  // ---- which names are safe, byte by byte ----------------------------------------------------

  /** Capital letters become small ones, everything else stays. */
  lemma LowerExact(c: byte)
    ensures if 'A' as int <= c <= 'Z' as int then Lower(c) - c == 'a' as int - 'A' as int else Lower(c) == c
  {
  }

  /** `part` stands between two slashes or backslashes, or the ends of the name. */
  predicate PartAt(name: seq<byte>, i: int, j: int, part: seq<byte>) {
    && 0 <= i <= j <= |name| && name[i..j] == part
    && (i == 0 || name[i - 1] == 0x2f || name[i - 1] == 0x5c)
    && (j == |name| || name[j] == 0x2f || name[j] == 0x5c)
    && forall k | i <= k < j :: name[k] != 0x2f && name[k] != 0x5c
  }

  function FirstEnd(s: seq<byte>): (n: nat)
    ensures n <= |s| && PartBytes(s[..n]) && (n < |s| ==> IsSeparator(s[n]))
  {
    if s == [] || IsSeparator(s[0]) then 0
    else
      assert s[..1 + FirstEnd(s[1..])][1..] == s[1..][..FirstEnd(s[1..])];
      1 + FirstEnd(s[1..])
  }

  /** A part is the first one, or lies behind the first separator. */
  lemma FirstOrLater(s: seq<byte>, i: int, j: int, part: seq<byte>)
    requires PartAt(s, i, j, part)
    ensures var n := FirstEnd(s);
      if i == 0 then part == s[..n] else n < |s| && PartAt(s[n + 1..], i - n - 1, j - n - 1, part)
  {
    hide FirstEnd, PartAt;
    FirstEnds(s, i, j, part);
    if i > 0 { Behind(s, FirstEnd(s) + 1, i, j, part); }
  }

  lemma FirstEnds(s: seq<byte>, i: int, j: int, part: seq<byte>)
    requires PartAt(s, i, j, part)
    ensures 0 <= i <= j <= |s|
    ensures i == 0 ==> j == FirstEnd(s) && part == s[..j]
    ensures i > 0 ==> FirstEnd(s) < i && FirstEnd(s) < |s|
  {
    hide FirstEnd;
    PlainFront(s, FirstEnd(s));
    if i == 0 { assert part == s[..j]; }
  }

  lemma Behind(s: seq<byte>, m: nat, i: int, j: int, part: seq<byte>)
    requires m <= i && PartAt(s, i, j, part)
    ensures PartAt(s[m..], i - m, j - m, part)
  {
    var t := s[m..];
    assert t[i - m..j - m] == s[i..j];
    if i > m { assert t[i - m - 1] == s[i - 1]; }
    if j < |s| { assert t[j - m] == s[j]; }
    forall k | i - m <= k < j - m
      ensures t[k] != 0x2f && t[k] != 0x5c
    {
      assert t[k] == s[k + m];
    }
  }

  lemma PlainFront(s: seq<byte>, n: nat)
    requires n <= |s| && PartBytes(s[..n])
    ensures forall k | 0 <= k < n :: !IsSeparator(s[k])
  {
    assert forall k | 0 <= k < n :: s[..n][k] == s[k];
  }

  lemma LaterPart(s: seq<byte>, n: nat, i: int, j: int, part: seq<byte>)
    requires n < |s| && IsSeparator(s[n]) && PartAt(s[n + 1..], i, j, part)
    ensures PartAt(s, n + 1 + i, n + 1 + j, part)
  {
    assert forall k | n + 1 + i <= k < n + 1 + j :: s[k] == s[n + 1..][k - n - 1];
  }

  lemma FirstPartAt(s: seq<byte>)
    ensures PartAt(s, 0, FirstEnd(s), s[..FirstEnd(s)])
  {
    hide FirstEnd;
    PlainFront(s, FirstEnd(s));
  }

  /** The parts of a name are exactly the stretches between its separators. */
  lemma {:induction false} PartsExact(s: seq<byte>, part: seq<byte>)
    ensures part in Split(s) <==> exists i, j :: PartAt(s, i, j, part)
    decreases |s|
  {
    hide PartAt, FirstEnd, Split;
    var n := FirstEnd(s);
    SplitStep(s, n);
    FirstPartAt(s);
    if n < |s| {
      PartsExact(s[n + 1..], part);
      if part in Split(s[n + 1..]) {
        var i, j :| PartAt(s[n + 1..], i, j, part);
        LaterPart(s, n, i, j, part);
      }
    } else {
      assert s[..n] == s;
    }
    forall i, j | PartAt(s, i, j, part)
      ensures part in Split(s)
    {
      FirstOrLater(s, i, j, part);
    }
  }

  /** No name is safe that is empty, absolute, holds a control byte or a colon, or has a part of one or two dots. */
  lemma SafeExact(name: seq<byte>)
    ensures Safe(name) <==>
      && name != [] && name[0] != 0x2f && name[0] != 0x5c
      && (forall k | 0 <= k < |name| :: name[k] >= 0x20 && name[k] != 0x3a)
      && !exists i, j :: PartAt(name, i, j, [0x2e]) || PartAt(name, i, j, [0x2e, 0x2e])
  {
    hide Split, PartAt;
    PartsExact(name, [0x2e]);
    PartsExact(name, [0x2e, 0x2e]);
  }

  const UNTIDY: seq<byte> := [0x41, 0x62, 0x5c, 0x2f, 0x43, 0x2e, 0x64]

  lemma UntidySplit()
    ensures Split(UNTIDY) == [[0x41, 0x62], [], [0x43, 0x2e, 0x64]] && Safe(UNTIDY)
  {
    hide Split;
    var later, last: seq<byte> := [0x2f, 0x43, 0x2e, 0x64], [0x43, 0x2e, 0x64];
    assert UNTIDY[..2] == [0x41, 0x62] && UNTIDY[3..] == later;
    SplitStep(UNTIDY, 2);
    assert later[..0] == [] && later[1..] == last;
    SplitStep(later, 0);
    assert last[..3] == last;
    SplitStep(last, 3);
  }

  lemma UntidyJoined()
    ensures Join([[0x61, 0x62], [0x63, 0x2e, 0x64]]) == [0x61, 0x62, 0x2f, 0x63, 0x2e, 0x64]
  {
    var parts: seq<seq<byte>> := [[0x61, 0x62], [0x63, 0x2e, 0x64]];
    assert parts[..1] == [[0x61, 0x62]] && parts[..1][..0] == [];
    assert Join(parts[..1]) == [0x61, 0x62];
  }

  lemma UntidyLowered()
    ensures LowerAll([0x41, 0x62]) == [0x61, 0x62] && LowerAll([0x43, 0x2e, 0x64]) == [0x63, 0x2e, 0x64]
  {
  }

  /** An example: the letters Ab, two separators of either kind, and C.d make the name ab/c.d. */
  lemma UntidyName()
    ensures Canonical(UNTIDY) == Some([0x61, 0x62, 0x2f, 0x63, 0x2e, 0x64])
  {
    hide Split, Clean, Join, LowerAll, Safe, UNTIDY;
    var first, last: seq<byte> := [0x41, 0x62], [0x43, 0x2e, 0x64];
    UntidySplit();
    UntidyLowered();
    UntidyJoined();
    CleanSnoc([], first);
    CleanSnoc([first], []);
    CleanSnoc([first, []], last);
    NothingCleaned();
    assert [] + [first] == [first] && [first] + [[]] == [first, []] && [first, []] + [last] == [first, [], last];
    assert Clean(Split(UNTIDY)) == [[0x61, 0x62], [0x63, 0x2e, 0x64]];
  }

  lemma NothingCleaned()
    ensures Clean([]) == []
  {
  }
}
