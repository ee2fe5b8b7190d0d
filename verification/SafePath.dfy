/** File names taken from a peer, and the search for a free name in the inbox. */
module SafePath {
  import opened Text
  import opened Numerals

  const LAST_SUFFIX := 9999

  predicate IsDropped(c: char) {
    c < ' ' || c == 0x7F as char || c == '/' || c == '\\'
  }

  predicate IsEdge(c: char) {
    c == ' ' || c == '.'
  }

  function WithoutDropped(s: string): string {
    if s == "" then "" else if IsDropped(s[0]) then WithoutDropped(s[1..]) else [s[0]] + WithoutDropped(s[1..])
  }

  /** Erases the first ".." until there is none. */
  function WithoutPairs(s: string): string
    decreases |s|
  {
    match Find(s, "..", 0)
    case None => s
    case Some(i) => WithoutPairs(s[..i] + s[i + 2..])
  }

  function TrimFront(s: string): string {
    if s != "" && IsEdge(s[0]) then TrimFront(s[1..]) else s
  }

  function TrimBack(s: string): string {
    if s != "" && IsEdge(s[|s| - 1]) then TrimBack(s[..|s| - 1]) else s
  }

  function Sanitized(s: string): string {
    var t := TrimBack(TrimFront(WithoutPairs(WithoutDropped(s))));
    if t == "" then "file" else t
  }

  method SanitizeFilename(filename: string) returns (out: string)
    ensures out == Sanitized(filename)
  {
    hide Find, At, WithoutDropped;
    out := "";
    assert filename[0..] == filename && "" + WithoutDropped(filename) == WithoutDropped(filename);
    for i := 0 to |filename|
      invariant out + WithoutDropped(filename[i..]) == WithoutDropped(filename)
    {
      DropStep(filename, i, out);
      var c := filename[i];
      if c < ' ' || c == 0x7F as char || c == '/' || c == '\\' { continue; }
      out := out + [c];
    }
    NothingToDrop(filename, out);
    while Find(out, "..", 0).Some?
      invariant WithoutPairs(out) == WithoutPairs(WithoutDropped(filename))
      decreases |out|
    {
      var at := Find(out, "..", 0).value;
      out := out[..at] + out[at + 2..];
    }
    while out != "" && (out[0] == ' ' || out[0] == '.')
      invariant TrimFront(out) == TrimFront(WithoutPairs(WithoutDropped(filename)))
      decreases |out|
    {
      out := out[1..];
    }
    while out != "" && (out[|out| - 1] == ' ' || out[|out| - 1] == '.')
      invariant TrimBack(out) == TrimBack(TrimFront(WithoutPairs(WithoutDropped(filename))))
      decreases |out|
    {
      out := out[..|out| - 1];
    }
    if out == "" { out := "file"; }
  }

  lemma DropStep(s: string, i: nat, before: string)
    requires i < |s|
    ensures before + WithoutDropped(s[i..])
         == (if IsDropped(s[i]) then before else before + [s[i]]) + WithoutDropped(s[i + 1..])
  {
    assert s[i..][1..] == s[i + 1..];
  }

  lemma NothingToDrop(s: string, before: string)
    ensures before + WithoutDropped(s[|s|..]) == before
  {
    assert s[|s|..] == "" && before + "" == before;
  }

  // ---------- What is left of a name ----------

  /** Dropping works character by character. */
  lemma {:induction false} DroppedIsCharwise(a: string, b: string)
    ensures WithoutDropped(a + b) == WithoutDropped(a) + WithoutDropped(b)
    ensures forall c: char ::
      WithoutDropped([c]) == if c as int < 0x20 || c as int in {0x7F, 0x2F, 0x5C} then "" else [c]
  {
    forall c: char ensures WithoutDropped([c]) == if IsDropped(c) then "" else [c] { assert [c][1..] == ""; }
    if a == "" {
      assert a + b == b;
    } else {
      assert (a + b)[1..] == a[1..] + b;
      DroppedIsCharwise(a[1..], b);
    }
  }

  /** One pass from the left that drops two dots at a time. */
  function OnePass(s: string): string
    decreases |s|
  {
    if |s| > 1 && s[0] == '.' && s[1] == '.' then OnePass(s[2..])
    else if s == "" then "" else [s[0]] + OnePass(s[1..])
  }

  lemma {:induction false} OnePassSkips(a: string, b: string)
    requires Find(a + "..", "..", 0) == Some(|a|)
    ensures OnePass(a + ".." + b) == OnePass(a + b)
    decreases |a|
  {
    var t, u := a + ".." + b, a + b;
    if a == "" {
      assert t[2..] == b == u;
    } else {
      NoDotsInFront(a);
      assert t[1..] == a[1..] + ".." + b && u[1..] == a[1..] + b;
      OnePassSkips(a[1..], b);
    }
  }

  lemma FirstIs(t: string, w: string, q: nat)
    requires Find(t, w, 0) == Some(q)
    ensures q + |w| <= |t| && At(t, q, w) && forall i: nat :: i < q ==> !At(t, i, w)
  {
  }

  lemma FoundOneEarlier(t: string, w: string, q: nat)
    requires q > 0 && t != "" && Find(t, w, 0) == Some(q)
    ensures Find(t[1..], w, 0) == Some(q - 1)
  {
    hide At, Find;
    FirstIs(t, w, q);
    assert t[1..|t|] == t[1..];
    forall i: nat | i < q - 1 ensures !At(t[1..], i, w) { AtInWindow(t, 1, |t|, i, w); }
    AtInWindow(t, 1, |t|, q - 1, w);
    FindIs(t[1..], w, 0, q - 1);
  }

  lemma FirstTwo(t: string)
    requires |t| > 1
    ensures At(t, 0, "..") <==> t[0] == '.' && t[1] == '.'
  {
    assert t[0..2] == [t[0], t[1]];
  }

  lemma TailOfConcat(a: string, b: string)
    requires a != ""
    ensures (a + b)[1..] == a[1..] + b
  {
  }

  /** A first pair that is not in front is found one earlier in the rest. */
  lemma NoDotsInFront(a: string)
    requires a != "" && Find(a + "..", "..", 0) == Some(|a|)
    ensures !((a + "..")[0] == '.' && (a + "..")[1] == '.') && Find(a[1..] + "..", "..", 0) == Some(|a| - 1)
  {
    PairIsBehind(a + "..", |a|);
    TailOfConcat(a, "..");
  }

  lemma PairIsBehind(t: string, q: nat)
    requires |t| > 1 && q > 0 && Find(t, "..", 0) == Some(q)
    ensures !(t[0] == '.' && t[1] == '.') && Find(t[1..], "..", 0) == Some(q - 1)
  {
    hide At, Find;
    FirstTwo(t);
    FirstIs(t, "..", q);
    FoundOneEarlier(t, "..", q);
  }

  /** Erasing the first pair of dots until there is none comes to that one pass. */
  lemma {:induction false} PairsAreOnePass(s: string)
    ensures WithoutPairs(s) == OnePass(s)
    decreases |s|
  {
    match Find(s, "..", 0)
    case None => NoPairs(s);
    case Some(i) =>
      var a, b := s[..i], s[i + 2..];
      assert s[i..i + 2] == "..";
      assert s == a + ".." + b;
      FirstPairIn(s, i);
      OnePassSkips(a, b);
      PairsAreOnePass(a + b);
  }

  lemma FirstPairIn(s: string, i: nat)
    requires Find(s, "..", 0) == Some(i)
    ensures Find(s[..i] + "..", "..", 0) == Some(i)
  {
    var t := s[..i] + "..";
    assert s[i..i + 2] == ".." && t == s[..i + 2];
    forall j: nat | j < i ensures !At(t, j, "..") {
      assert !At(s, j, "..");
      if j + 2 <= |t| { assert t[j..j + 2] == s[j..j + 2]; }
    }
    assert t[i..i + 2] == "..";
    FindIs(t, "..", 0, i);
  }

  lemma {:induction false} NoPairs(s: string)
    requires Find(s, "..", 0).None?
    ensures OnePass(s) == s
  {
    if s != "" {
      assert !At(s, 0, "..");
      assert |s| > 1 ==> s[0..2] == [s[0], s[1]];
      forall i: nat ensures !At(s[1..], i, "..") {
        assert !At(s, i + 1, "..");
        if i + 2 <= |s[1..]| { assert s[1..][i..i + 2] == s[i + 1..i + 3]; }
      }
      NoPairs(s[1..]);
      assert s == [s[0]] + s[1..];
    }
  }

  /** The edges that are cut off are blanks and dots. */
  ghost predicate IsCore(s: string, core: string) {
    exists a, b :: s == a + core + b && (forall c <- a + b :: c == ' ' || c == '.')
  }

  lemma {:induction false} FrontIsCut(s: string) returns (a: string)
    ensures s == a + TrimFront(s) && forall c <- a :: c == ' ' || c == '.'
  {
    if s != "" && IsEdge(s[0]) {
      var more := FrontIsCut(s[1..]);
      a := [s[0]] + more;
    } else {
      a := "";
      assert a + s == s;
    }
  }

  lemma {:induction false} BackIsCut(s: string) returns (b: string)
    ensures s == TrimBack(s) + b && forall c <- b :: c == ' ' || c == '.'
  {
    if s != "" && IsEdge(s[|s| - 1]) {
      var more := BackIsCut(s[..|s| - 1]);
      b := more + [s[|s| - 1]];
    } else {
      b := "";
      assert s + b == s;
    }
  }

  /** The sanitized name is what the dropping and the pass leave, without blanks and dots at its edges;
      "file" stands in where nothing is left. */
  lemma SanitizedIsCore(s: string)
    ensures var t, r := OnePass(WithoutDropped(s)), Sanitized(s);
            IsCore(t, r) || (r == "file" && IsCore(t, ""))
  {
    hide WithoutDropped, WithoutPairs, OnePass, TrimFront, TrimBack;
    PairsAreOnePass(WithoutDropped(s));
    var t := OnePass(WithoutDropped(s));
    var a := FrontIsCut(t);
    var b := BackIsCut(TrimFront(t));
    assert t == a + TrimBack(TrimFront(t)) + b;
  }

  /** A single path component that is safe to create in the inbox. */
  ghost predicate Safe(s: string) {
    && s != ""
    && (forall c <- s :: !IsDropped(c))
    && Find(s, "..", 0).None?
    && s[0] != ' ' && s[0] != '.' && s[|s| - 1] != ' ' && s[|s| - 1] != '.'
  }

  lemma {:induction false} DroppedAreGone(s: string)
    ensures forall c <- WithoutDropped(s) :: !IsDropped(c)
    ensures (forall c <- s :: !IsDropped(c)) ==> WithoutDropped(s) == s
  {
    if s != "" {
      DroppedAreGone(s[1..]);
      assert s[0] in s && forall c <- s[1..] :: c in s;
    }
  }

  lemma {:induction false} PairsAreGone(s: string)
    ensures Find(WithoutPairs(s), "..", 0).None?
    ensures forall c <- WithoutPairs(s) :: c in s
    decreases |s|
  {
    if Find(s, "..", 0).Some? {
      var i := Find(s, "..", 0).value;
      PairsAreGone(s[..i] + s[i + 2..]);
    }
  }

  /** Trimming keeps a window of the text, so it adds no character and no "..". */
  lemma {:induction false} TrimFrontIsSuffix(s: string) returns (k: nat)
    ensures k <= |s| && TrimFront(s) == s[k..] && (k < |s| ==> !IsEdge(s[k]))
  {
    k := 0;
    if s != "" && IsEdge(s[0]) {
      var j := TrimFrontIsSuffix(s[1..]);
      k := j + 1;
    }
  }

  lemma {:induction false} TrimBackIsPrefix(s: string) returns (k: nat)
    ensures k <= |s| && TrimBack(s) == s[..k] && (k > 0 ==> !IsEdge(s[k - 1]))
  {
    k := |s|;
    if s != "" && IsEdge(s[|s| - 1]) {
      k := TrimBackIsPrefix(s[..|s| - 1]);
      assert s[..|s| - 1][..k] == s[..k];
    }
  }

  lemma WindowHasNoPair(s: string, a: nat, b: nat)
    requires a <= b <= |s| && Find(s, "..", 0).None?
    ensures Find(s[a..b], "..", 0).None?
  {
    hide At;
    forall i: nat ensures !At(s[a..b], i, "..") {
      assert !At(s, a + i, "..");
      AtInWindow(s, a, b, i, "..");
    }
  }

  /** Whatever is sent, the name used is safe. */
  lemma SanitizedIsSafe(s: string)
    ensures Safe(Sanitized(s))
  {
    hide Find, WithoutDropped, WithoutPairs, TrimFront, TrimBack, IsDropped;
    var t := WithoutPairs(WithoutDropped(s));
    DroppedAreGone(s);
    PairsAreGone(WithoutDropped(s));
    var a := TrimFrontIsSuffix(t);
    var b := TrimBackIsPrefix(t[a..]);
    if b == 0 {
      FileIsSafe();
    } else {
      var r := t[a..][..b];
      assert r == t[a..a + b];
      WindowHasNoPair(t, a, a + b);
      assert forall c <- r :: c in t;
    }
  }

  lemma FileIsSafe()
    ensures Safe("file")
  {
    forall i: nat ensures !At("file", i, "..") {
      if i + 2 <= 4 { assert "file"[i..i + 2][0] == "file"[i]; }
    }
  }

  /** The safe names are exactly those that come back unchanged; so sanitizing twice changes nothing. */
  lemma SafeAreFixedPoints(s: string)
    ensures Safe(s) <==> Sanitized(s) == s
    ensures Sanitized(Sanitized(s)) == Sanitized(s)
  {
    hide Find, IsDropped;
    SanitizedIsSafe(s);
    SafeIsKept(Sanitized(s));
    if Safe(s) { SafeIsKept(s); }
  }

  lemma SafeIsKept(s: string)
    requires Safe(s)
    ensures Sanitized(s) == s
  {
    hide Find, IsDropped;
    DroppedAreGone(s);
  }

  // ---------- A free name ----------

  /** Where the extension starts: at the last dot, unless that is the first character. */
  function ExtensionStart(s: string): (k: nat)
    ensures k <= |s| && (k < |s| ==> 0 < k && s[k] == '.')
  {
    LastDot(s, |s|)
  }

  function LastDot(s: string, k: nat): (r: nat)
    requires k <= |s|
    ensures r <= |s| && (r < |s| ==> 0 < r < k && s[r] == '.')
  {
    if k <= 1 then |s| else if s[k - 1] == '.' then k - 1 else LastDot(s, k - 1)
  }

  /** The extension starts at the last dot, unless that is the first character. */
  lemma {:induction false} LastDotIs(s: string, k: nat)
    requires k <= |s|
    ensures forall i :: 0 < i < k && s[i] == '.' ==> LastDot(s, k) < |s| && i <= LastDot(s, k)
  {
    if k > 1 && s[k - 1] != '.' { LastDotIs(s, k - 1); }
  }

  /** A suffixed name: between the stem and the extension, in parentheses and after a blank. */
  lemma SuffixGoesBeforeExtension(stem: string, extension: string, i: nat)
    requires stem != "" && i > 0 && (extension == "" ==> '.' !in stem[1..])
    requires extension != "" ==> extension[0] == '.' && '.' !in extension[1..]
    ensures Candidate(stem + extension, i) == stem + " (" + Numeral(i, 10) + ")" + extension
    ensures Candidate(stem + extension, 0) == stem + extension
  {
    hide Numeral, LastDot;
    var s := stem + extension;
    LastDotIs(s, |s|);
    if extension == "" {
      forall j | 0 < j < |s| ensures s[j] != '.' { assert s[j] == stem[1..][j - 1]; }
      assert s == stem;
    } else {
      assert s[|stem|] == '.';
      forall j | |stem| < j < |s| ensures s[j] != '.' { assert s[j] == extension[1..][j - |stem| - 1]; }
      assert s[..|stem|] == stem && s[|stem|..] == extension;
    }
    assert Stem(s) == stem && Extension(s) == extension;
    assert stem + Suffix(i) + extension == stem + " (" + Numeral(i, 10) + ")" + extension;
  }

  function Stem(s: string): string {
    s[..ExtensionStart(s)]
  }

  function Extension(s: string): string {
    s[ExtensionStart(s)..]
  }

  function Suffix(i: nat): string {
    " (" + Numeral(i, 10) + ")"
  }

  /** The `i`-th name that is tried; the 0th is the name itself. */
  function Candidate(clean: string, i: nat): string {
    if i == 0 then clean else Stem(clean) + Suffix(i) + Extension(clean)
  }

  /** The first candidate from the `i`-th on that is not in the directory, or else the last one. */
  function FirstFree(directory: set<string>, clean: string, i: nat): string
    decreases LAST_SUFFIX + 1 - i
  {
    if i > LAST_SUFFIX then Candidate(clean, LAST_SUFFIX)
    else if Candidate(clean, i) !in directory then Candidate(clean, i)
    else FirstFree(directory, clean, i + 1)
  }

  /** `unique_destination_path` over the names in the directory. */
  method UniqueDestinationPath(directory: set<string>, requested: string) returns (name: string)
    ensures name == FirstFree(directory, Sanitized(requested), 0)
  {
    hide Candidate;
    CandidateIs(Sanitized(requested));
    var clean := SanitizeFilename(requested);
    name := clean;
    if name !in directory { return; }
    var stem, extension := Stem(clean), Extension(clean);
    for i := 1 to LAST_SUFFIX + 1
      invariant FirstFree(directory, clean, i) == FirstFree(directory, clean, 0)
    {
      name := stem + " (" + Numeral(i, 10) + ")" + extension;
      CandidateText(clean, i);
      if name !in directory { return; }
    }
    CandidateText(clean, LAST_SUFFIX);
    return stem + " (" + Numeral(LAST_SUFFIX, 10) + ")" + extension;
  }

  lemma CandidateIs(clean: string)
    ensures Candidate(clean, 0) == clean
  {
  }

  lemma CandidateText(clean: string, i: nat)
    requires i > 0
    ensures Candidate(clean, i) == Stem(clean) + " (" + Numeral(i, 10) + ")" + Extension(clean)
  {
    hide Numeral, Stem, Extension;
  }

  lemma CandidateSuffix(clean: string, i: nat)
    requires i > 0
    ensures var c, k := Candidate(clean, i), |Stem(clean)|;
            && |c| == |clean| + |Numeral(i, 10)| + 3
            && c[k + 2..k + 2 + (|c| - |clean| - 3)] == Numeral(i, 10)
  {
    hide Numeral, LastDot;
    assert clean == Stem(clean) + Extension(clean);
  }

  lemma NumeralsDiffer(i: nat, j: nat)
    requires i != j
    ensures Numeral(i, 10) != Numeral(j, 10)
  {
    hide Numeral, Value;
    assert Value(Numeral(i, 10), 10) == i && Value(Numeral(j, 10), 10) == j;
  }

  /** Different suffixes give different names. */
  lemma CandidatesDiffer(clean: string, i: nat, j: nat)
    requires i < j
    ensures Candidate(clean, i) != Candidate(clean, j)
  {
    hide Candidate, Numeral, Stem;
    CandidateSuffix(clean, j);
    if i == 0 {
      CandidateIs(clean);
    } else {
      CandidateSuffix(clean, i);
      NumeralsDiffer(i, j);
    }
  }

  /** A directory that holds `n` different candidates has at least `n` entries. */
  lemma {:induction false} Pigeonhole(directory: set<string>, clean: string, n: nat)
    requires forall i :: 0 <= i < n ==> Candidate(clean, i) in directory
    ensures |directory| >= n
  {
    hide Candidate;
    if n > 0 {
      var last := Candidate(clean, n - 1);
      forall i | 0 <= i < n - 1 ensures Candidate(clean, i) in directory - {last} {
        CandidatesDiffer(clean, i, n - 1);
      }
      Pigeonhole(directory - {last}, clean, n - 1);
    }
  }

  lemma {:induction false} FirstFreeIsFirst(directory: set<string>, clean: string, i: nat)
    requires i <= LAST_SUFFIX + 1 && forall k :: 0 <= k < i ==> Candidate(clean, k) in directory
    ensures var name := FirstFree(directory, clean, i);
            || (name == Candidate(clean, LAST_SUFFIX)
                && forall k :: 0 <= k <= LAST_SUFFIX ==> Candidate(clean, k) in directory)
            || exists k :: 0 <= k <= LAST_SUFFIX && name == Candidate(clean, k) && name !in directory
                           && forall j :: 0 <= j < k ==> Candidate(clean, j) in directory
    decreases LAST_SUFFIX + 1 - i
  {
    hide Candidate;
    if i <= LAST_SUFFIX && Candidate(clean, i) in directory {
      FirstFreeIsFirst(directory, clean, i + 1);
    }
  }

  /** The chosen name is the free candidate with the lowest suffix; it is free unless all 10000
      candidates are taken, which needs as many entries; and it is a safe single component. */
  lemma DestinationIsFree(directory: set<string>, requested: string)
    ensures var clean := Sanitized(requested);
            var name := FirstFree(directory, clean, 0);
            && Safe(name)
            && (name in directory <==> forall k :: 0 <= k <= LAST_SUFFIX ==> Candidate(clean, k) in directory)
            && (|directory| < 10000 ==> name !in directory)
            && (name !in directory ==>
                  exists k :: 0 <= k <= LAST_SUFFIX && name == Candidate(clean, k)
                              && forall j :: 0 <= j < k ==> Candidate(clean, j) in directory)
  {
    hide Candidate, Safe, FirstFree, Sanitized;
    var clean := Sanitized(requested);
    var name := FirstFree(directory, clean, 0);
    SanitizedIsSafe(requested);
    FirstFreeIsFirst(directory, clean, 0);
    var k :| 0 <= k <= LAST_SUFFIX && name == Candidate(clean, k);
    CandidateIsSafe(clean, k);
    if name in directory { Pigeonhole(directory, clean, LAST_SUFFIX + 1); }
  }

  lemma NoPairInJoin(a: string, b: string)
    requires Find(a, "..", 0).None? && Find(b, "..", 0).None?
    requires a != "" && b != "" ==> a[|a| - 1] != '.' || b[0] != '.'
    ensures Find(a + b, "..", 0).None?
  {
    hide Find, At;
    var t := a + b;
    assert t[0..|a|] == a && t[|a|..|t|] == b;
    forall i: nat ensures !At(t, i, "..") {
      AtIndex(t, i, "..", 0);
      AtIndex(t, i, "..", 1);
      if i + 2 <= |a| {
        AtInWindow(t, 0, |a|, i, "..");
        assert !At(a, i, "..");
      } else if |a| <= i < |t| - 1 {
        AtInWindow(t, |a|, |t|, i - |a|, "..");
        assert !At(b, i - |a|, "..");
      }
    }
  }

  lemma SuffixIsSafe(i: nat)
    ensures Find(Suffix(i), "..", 0).None? && forall c <- Suffix(i) :: !IsDropped(c) && c != '.'
  {
    hide Numeral;
    var n := Numeral(i, 10);
    assert forall c <- Suffix(i) :: c in n || c == ' ' || c == '(' || c == ')';
    forall k: nat ensures !At(Suffix(i), k, "..") {
      AtIndex(Suffix(i), k, "..", 0);
      assert k < |Suffix(i)| ==> Suffix(i)[k] in Suffix(i);
    }
  }

  lemma CandidateIsSafe(clean: string, i: nat)
    requires Safe(clean)
    ensures Safe(Candidate(clean, i))
  {
    hide Suffix, LastDot, Find, IsDropped;
    if i > 0 {
      var stem, suffix, ext := Stem(clean), Suffix(i), Extension(clean);
      assert clean == stem + ext;
      assert forall c <- stem :: c in clean;
      assert forall c <- ext :: c in clean;
      WindowHasNoPair(clean, 0, |stem|);
      WindowHasNoPair(clean, |stem|, |clean|);
      assert clean[0..|stem|] == stem && clean[|stem|..|clean|] == ext;
      SuffixIsSafe(i);
      SuffixEnds(i);
      NoPairInJoin(stem, suffix);
      assert (stem + suffix)[|stem + suffix| - 1] == ')';
      NoPairInJoin(stem + suffix, ext);
    }
  }

  lemma SuffixEnds(i: nat)
    ensures |Suffix(i)| > 3 && Suffix(i)[0] == ' ' && Suffix(i)[|Suffix(i)| - 1] == ')'
  {
    hide Numeral;
  }
}
