/** The name under which the other version of a conflicting file is kept. */
module ConflictName {
  import opened Prelude

  // ---- stem and extension ----

  /** Where the last component begins. */
  function NameStart(path: string): (k: nat)
    ensures k <= |path| && (k > 0 ==> path[k - 1] == '/') && forall i :: k <= i < |path| ==> path[i] != '/'
  {
    if path == "" then 0
    else if path[|path| - 1] == '/' then |path|
    else NameStart(path[..|path| - 1])
  }

  function LastDot(path: string): Option<nat> {
    if path == "" then None
    else if path[|path| - 1] == '.' then Some(|path| - 1)
    else LastDot(path[..|path| - 1])
  }

  /** `split_stem_ext`: at the last dot of the last component, unless that dot comes first. */
  function SplitStemExt(path: string): (string, string) {
    var dot := LastDot(path);
    if dot.Some? && dot.value > NameStart(path) && dot.value < |path| then (path[..dot.value], path[dot.value..])
    else (path, "")
  }

  lemma {:induction false} LastDotExactly(path: string)
    ensures LastDot(path).Some? ==>
              LastDot(path).value < |path| && path[LastDot(path).value] == '.' &&
              forall i :: LastDot(path).value < i < |path| ==> path[i] != '.'
    ensures LastDot(path).None? ==> '.' !in path
  {
    if path != "" {
      var n := |path| - 1;
      LastDotExactly(path[..n]);
      assert path == path[..n] + [path[n]];
    }
  }

  /** The parts make up the path; the extension is the last dot and what follows it in a name that has something
      before the dot; and it is empty only when there is no such dot. */
  lemma SplitExactly(path: string)
    ensures var (stem, ext) := SplitStemExt(path);
            stem + ext == path &&
            (ext != "" ==> ext[0] == '.' && '.' !in ext[1..] && '/' !in ext && NameStart(path) < |stem|) &&
            (ext == "" ==> forall i :: NameStart(path) < i < |path| ==> path[i] != '.')
  {
    LastDotExactly(path);
    var dot := LastDot(path);
    if dot.Some? && dot.value > NameStart(path) {
      CutAtDot(path, dot.value);
    } else {
      assert path + "" == path;
    }
  }

  lemma CutAtDot(path: string, d: nat)
    requires NameStart(path) < d < |path| && path[d] == '.' && forall i :: d < i < |path| ==> path[i] != '.'
    ensures path[..d] + path[d..] == path && path[d..][0] == '.' && '.' !in path[d..][1..] && '/' !in path[d..]
  {
    TailWithout(path, d + 1, '.');
    TailWithout(path, d, '/');
    assert path[d..][1..] == path[d + 1..];
  }

  lemma TailWithout(s: string, k: nat, c: char)
    requires k <= |s| && forall i :: k <= i < |s| ==> s[i] != c
    ensures c !in s[k..]
  {}

  // ---- candidates ----

  function Digit(d: nat): char
    requires d < 10
  {
    "0123456789"[d]
  }

  function Decimal(n: nat): string {
    if n < 10 then [Digit(n)] else Decimal(n / 10) + [Digit(n % 10)]
  }

  lemma DigitInjective(a: nat, b: nat)
    requires a < 10 && b < 10 && Digit(a) == Digit(b)
    ensures a == b
  {
    var digits := "0123456789";
    assert forall i, j :: 0 <= i < j < 10 ==> digits[i] != digits[j];
  }

  lemma {:induction false} DecimalInjective(a: nat, b: nat)
    requires Decimal(a) == Decimal(b)
    ensures a == b
  {
    var x, y := Decimal(a), Decimal(b);
    assert x[|x| - 1] == Digit(a % 10) && y[|y| - 1] == Digit(b % 10);
    DigitInjective(a % 10, b % 10);
    if a >= 10 && b >= 10 {
      assert x[..|x| - 1] == Decimal(a / 10) && y[..|y| - 1] == Decimal(b / 10);
      DecimalInjective(a / 10, b / 10);
    }
  }

  /** What a name says about the other version. */
  datatype Origin = Origin(device: string, stamp: string)

  function Label(o: Origin): string { " (conflict from " + o.device + " " + o.stamp + ")" }

  /** The first candidate carries no number; the next ones are numbered from 2. */
  function Candidate(path: string, o: Origin, k: nat): string {
    var (stem, ext) := SplitStemExt(path);
    stem + Label(o) + (if k < 2 then "" else "-" + Decimal(k)) + ext
  }

  /** The number that a text of digits stands for. */
  function NumberOf(text: string): nat {
    if text == "" then 0
    else
      var last := text[|text| - 1];
      10 * NumberOf(text[..|text| - 1]) + if '0' <= last <= '9' then (last - '0') as nat else 0
  }

  predicate IsDigits(text: string) { text != "" && forall i :: 0 <= i < |text| ==> '0' <= text[i] <= '9' }

  lemma DigitValue(d: nat)
    requires d < 10
    ensures '0' <= Digit(d) <= '9' && (Digit(d) - '0') as nat == d
  {
    assert "0123456789"[d] == ['0', '1', '2', '3', '4', '5', '6', '7', '8', '9'][d];
  }

  /** Numbers are written in decimal, without leading zeros. */
  lemma {:induction false} DecimalReadsBack(n: nat)
    ensures IsDigits(Decimal(n)) && NumberOf(Decimal(n)) == n && (n > 0 ==> Decimal(n)[0] != '0')
  {
    DigitValue(n % 10);
    if n < 10 {
      assert Decimal(n)[..0] == "";
    } else {
      DecimalReadsBack(n / 10);
      assert Decimal(n)[..|Decimal(n)| - 1] == Decimal(n / 10);
    }
  }

  /** The names in full: the text before the extension, the note, from the second on a dash and the number, and the
      extension. */
  lemma CandidateText(path: string, stem: string, ext: string, device: string, stamp: string, k: nat)
    requires SplitStemExt(path) == (stem, ext)
    ensures Candidate(path, Origin(device, stamp), 1) == stem + " (conflict from " + device + " " + stamp + ")" + ext
    ensures k >= 2 ==>
              exists number :: IsDigits(number) && NumberOf(number) == k && number[0] != '0' &&
                Candidate(path, Origin(device, stamp), k) ==
                stem + " (conflict from " + device + " " + stamp + ")" + "-" + number + ext
  {
    var note := Label(Origin(device, stamp));
    assert stem + note == stem + " (conflict from " + device + " " + stamp + ")";
    assert stem + note + "" == stem + note;
    if k >= 2 {
      DecimalReadsBack(k);
      assert stem + note + ("-" + Decimal(k)) == stem + note + "-" + Decimal(k);
    }
  }

  lemma CandidatesDiffer(path: string, o: Origin, j: nat, k: nat)
    requires 1 <= j < k
    ensures Candidate(path, o, j) != Candidate(path, o, k)
  {
    var (stem, ext) := SplitStemExt(path);
    var a, b := if j < 2 then "" else "-" + Decimal(j), "-" + Decimal(k);
    if Candidate(path, o, j) == Candidate(path, o, k) {
      MiddleOf(stem + Label(o), a, ext);
      MiddleOf(stem + Label(o), b, ext);
      assert a == b;
      assert b[1..] == Decimal(k);
      if j >= 2 {
        assert a[1..] == Decimal(j);
        DecimalInjective(j, k);
      }
    }
  }

  lemma MiddleOf(front: string, middle: string, back: string)
    ensures var s := front + middle + back;
            s[|front|..|s| - |back|] == middle
  {}

  function Tried(path: string, o: Origin, k: nat): set<string> {
    set i: nat | 1 <= i < k :: Candidate(path, o, i)
  }

  lemma TriedStep(path: string, o: Origin, k: nat)
    requires k >= 1
    ensures Tried(path, o, k + 1) == Tried(path, o, k) + {Candidate(path, o, k)}
    ensures Candidate(path, o, k) !in Tried(path, o, k)
  {
    forall i: nat | 1 <= i < k
      ensures Candidate(path, o, i) != Candidate(path, o, k)
    {
      CandidatesDiffer(path, o, i, k);
    }
  }

  lemma {:induction false} TriedCount(path: string, o: Origin, k: nat)
    requires k >= 1
    ensures |Tried(path, o, k)| == k - 1
  {
    if k == 1 {
      assert Tried(path, o, 1) == {};
    } else {
      TriedCount(path, o, k - 1);
      TriedStep(path, o, k - 1);
    }
  }

  lemma SubsetCount(a: set<string>, b: set<string>)
    requires a <= b
    ensures |a| <= |b|
  {
    if a != {} {
      var x :| x in a;
      SubsetCount(a - {x}, b - {x});
    }
  }

  /** `conflict_filename`: the first candidate that no entry of the folder has. It is found within one more try
      than the folder has entries. */
  method ConflictFilename(path: string, o: Origin, existing: set<string>) returns (name: string)
    ensures name !in existing
    ensures exists k: nat :: 1 <= k <= |existing| + 1 && name == Candidate(path, o, k) &&
              forall i: nat :: 1 <= i < k ==> Candidate(path, o, i) in existing
  {
    var k: nat := 1;
    name := Candidate(path, o, 1);
    while name in existing
      invariant 1 <= k && name == Candidate(path, o, k)
      invariant Tried(path, o, k) <= existing && k - 1 <= |existing|
      decreases |existing| + 1 - k
    {
      TriedStep(path, o, k);
      TriedCount(path, o, k + 1);
      SubsetCount(Tried(path, o, k + 1), existing);
      k := k + 1;
      name := Candidate(path, o, k);
    }
    forall i: nat | 1 <= i < k
      ensures Candidate(path, o, i) in existing
    {
      assert Candidate(path, o, i) in Tried(path, o, k);
    }
  }

  // ---- where the copy ends up ----

  function Folder(path: string): string { path[..NameStart(path)] }

  lemma {:induction false} NameStartOf(folder: string, name: string)
    requires '/' !in name && (folder == "" || folder[|folder| - 1] == '/')
    ensures NameStart(folder + name) == |folder|
  {
    var path := folder + name;
    if name != "" {
      var n := |name| - 1;
      assert path[..|path| - 1] == folder + name[..n];
      NameStartOf(folder, name[..n]);
    } else {
      assert path == folder;
    }
  }

  lemma {:induction false} NoSlashInDecimal(n: nat)
    ensures '/' !in Decimal(n)
  {
    if n >= 10 {
      NoSlashInDecimal(n / 10);
    }
  }

  /** What a candidate's last component looks like. */
  function TailOf(path: string, o: Origin, k: nat): string {
    var (stem, ext) := SplitStemExt(path);
    if NameStart(path) <= |stem| then
      stem[NameStart(path)..] + Label(o) + (if k < 2 then "" else "-" + Decimal(k)) + ext
    else ""
  }

  lemma NoSlashInTail(path: string, o: Origin, k: nat)
    requires '/' !in o.device && '/' !in o.stamp
    ensures '/' !in TailOf(path, o, k)
  {
    var (stem, ext) := SplitStemExt(path);
    SplitExactly(path);
    NoSlashInDecimal(k);
    if NameStart(path) <= |stem| {
      assert stem == path[..|stem|];
      TailWithout(stem, NameStart(path), '/');
      assert '/' !in " (conflict from " && '/' !in " " && '/' !in ")" && '/' !in "-";
    }
  }

  lemma FrontParts(folder: string, base: string, note: string, number: string, ext: string)
    ensures (folder + base) + note + number + ext == folder + (base + note + number + ext)
  {}

  lemma CandidateIsFolderAndTail(path: string, o: Origin, k: nat)
    ensures Candidate(path, o, k) == path[..NameStart(path)] + TailOf(path, o, k)
    ensures Candidate(path, o, k) != path
  {
    var (stem, ext) := SplitStemExt(path);
    var s := NameStart(path);
    var number := if k < 2 then "" else "-" + Decimal(k);
    StemHoldsFolder(path);
    FrontParts(path[..s], stem[s..], Label(o), number, ext);
    assert |Label(o)| > 0;
  }

  lemma StemHoldsFolder(path: string)
    ensures var (stem, ext) := SplitStemExt(path);
            NameStart(path) <= |stem| && stem == path[..NameStart(path)] + stem[NameStart(path)..] &&
            |stem| + |ext| == |path|
  {
    var dot := LastDot(path);
    if dot.Some? && dot.value > NameStart(path) && dot.value < |path| {
      PrefixInTwo(path, NameStart(path), dot.value);
    } else {
      PrefixInTwo(path, NameStart(path), |path|);
      assert path[..|path|] == path;
    }
  }

  lemma PrefixInTwo(path: string, s: nat, d: nat)
    requires s <= d <= |path|
    ensures path[..d] == path[..s] + path[..d][s..]
  {}

  /** The copy is never the original, and lies beside it, as long as the device name has no slash. */
  lemma CandidateBesideOriginal(path: string, o: Origin, k: nat)
    requires '/' !in o.device && '/' !in o.stamp
    ensures Candidate(path, o, k) != path && Folder(Candidate(path, o, k)) == Folder(path)
  {
    CandidateIsFolderAndTail(path, o, k);
    NoSlashInTail(path, o, k);
    var folder := path[..NameStart(path)];
    NameStartOf(folder, TailOf(path, o, k));
    assert (folder + TailOf(path, o, k))[..|folder|] == folder;
  }
}
