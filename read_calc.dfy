/**
 * read_calc.py: sorting job logs into lifecycle buckets, decoding the
 * directory layout that carries a result's metadata, extracting the final
 * energies, and selecting one series out of the extracted records.
 *
 * The file system is replaced by its answers: a glob is the sequence of
 * `Artifact`s it matched (absolute, normalised path as segments, with the
 * file's content), and the working directory is a segment list.
 */
module ReadCalc {
  import opened Wrappers
  import opened Text
  import opened Sequences
  import opened Decimal
  import Wildcard

  // ---------------------------------------------------------------------------
  // Status classifier

  datatype CalcStatus = Success | OptFailed | CodeFailed | Running

  const SUCCESS_MARKER := "Optimization was successful"
  const OPT_FAILED_MARKER := "Optimization was not successful: "
  /**
   * The source searches for the regular expression
   * `Traceback (most recent call last):`. Its parentheses form a group, so
   * the text the search finds is this one, without parentheses.
   */
  const TRACEBACK_MARKER := "Traceback most recent call last:"

  /** The bucket of one log: success, else optimisation failure, else traceback, else still running. */
  function Classify(text: string): CalcStatus {
    if Contains(text, SUCCESS_MARKER) then Success
    else if Contains(text, OPT_FAILED_MARKER) then OptFailed
    else if Contains(text, TRACEBACK_MARKER) then CodeFailed
    else Running
  }

  /** A success marker anywhere wins over whatever else the log contains. */
  lemma SuccessWins(before: string, after: string)
    ensures Classify(before + SUCCESS_MARKER + after) == Success
  {
    ContainsInside(before, SUCCESS_MARKER, after);
  }

  /** An optimisation-failure marker outranks a traceback: such a log is failed unless it also reports success. */
  lemma OptFailureOutranksTraceback(before: string, after: string)
    ensures Classify(before + OPT_FAILED_MARKER + after) in {Success, OptFailed}
  {
    ContainsInside(before, OPT_FAILED_MARKER, after);
  }

  /** A log with the traceback marker is never taken for a running job. */
  lemma TracebackIsNotRunning(before: string, after: string)
    ensures Classify(before + TRACEBACK_MARKER + after) != Running
  {
    ContainsInside(before, TRACEBACK_MARKER, after);
  }

  /** Running is the default bucket: exactly the logs in which no marker occurs at any index. */
  lemma RunningIffNoMarker(text: string)
    ensures Classify(text) == Running <==>
      forall i: nat :: !OccursAt(text, SUCCESS_MARKER, i) && !OccursAt(text, OPT_FAILED_MARKER, i)
                       && !OccursAt(text, TRACEBACK_MARKER, i)
  {
    ContainsIffOccurs(text, SUCCESS_MARKER);
    ContainsIffOccurs(text, OPT_FAILED_MARKER);
    ContainsIffOccurs(text, TRACEBACK_MARKER);
  }

  /** An empty log (a job that has written nothing yet) is running. */
  lemma EmptyIsRunning()
    ensures Classify("") == Running
  {
  }

  /** The header line with which Python starts every traceback it prints. */
  const PYTHON_TRACEBACK_HEADER := "Traceback (most recent call last):"

  lemma HeaderLacksTracebackMarker()
    ensures !Contains(PYTHON_TRACEBACK_HEADER, TRACEBACK_MARKER)
  {
    assert PYTHON_TRACEBACK_HEADER[10] == '(';
    assert '(' !in TRACEBACK_MARKER;
    NotContainsCoveredChar(PYTHON_TRACEBACK_HEADER, TRACEBACK_MARKER, 10);
  }

  lemma HeaderLacksOptimizationMarkers()
    ensures !Contains(PYTHON_TRACEBACK_HEADER, SUCCESS_MARKER)
    ensures !Contains(PYTHON_TRACEBACK_HEADER, OPT_FAILED_MARKER)
  {
    assert 'O' !in PYTHON_TRACEBACK_HEADER;
    NotContainsWithoutFirstChar(PYTHON_TRACEBACK_HEADER, SUCCESS_MARKER);
    NotContainsWithoutFirstChar(PYTHON_TRACEBACK_HEADER, OPT_FAILED_MARKER);
  }

  /**
   * A genuine Python traceback header does not contain the text the code
   * searches for, so the log of a crashed job that holds nothing else is
   * classified as running, not as failed.
   */
  lemma PythonTracebackHeaderIsRunning()
    ensures Classify(PYTHON_TRACEBACK_HEADER) == Running
  {
    HeaderLacksTracebackMarker();
    HeaderLacksOptimizationMarkers();
  }

  /**
   * One file matched by the glob: its absolute, normalised path as segments,
   * and its content as `f.read()` returns it in text mode, that is decoded
   * and with line endings already translated. Every match is taken to be a
   * readable file.
   */
  datatype Artifact = Artifact(path: seq<string>, text: string)

  /** The matches that land in bucket `st`, in glob order. */
  function WithStatus(files: seq<Artifact>, st: CalcStatus): seq<Artifact>
    decreases |files|
  {
    if files == [] then []
    else (if Classify(files[0].text) == st then [files[0]] else []) + WithStatus(files[1..], st)
  }

  /** `status`: one pass over the matches, appending each to the list of its bucket. */
  method Status(files: seq<Artifact>)
    returns (success: seq<Artifact>, optFailed: seq<Artifact>, codeFailed: seq<Artifact>, running: seq<Artifact>)
    ensures success == WithStatus(files, Success)
    ensures optFailed == WithStatus(files, OptFailed)
    ensures codeFailed == WithStatus(files, CodeFailed)
    ensures running == WithStatus(files, Running)
  {
    success, optFailed, codeFailed, running := [], [], [], [];
    for i := 0 to |files|
      invariant WithStatus(files, Success) == success + WithStatus(files[i..], Success)
      invariant WithStatus(files, OptFailed) == optFailed + WithStatus(files[i..], OptFailed)
      invariant WithStatus(files, CodeFailed) == codeFailed + WithStatus(files[i..], CodeFailed)
      invariant WithStatus(files, Running) == running + WithStatus(files[i..], Running)
    {
      var file := files[i];
      WithStatusStep(files, i, success, Success);
      WithStatusStep(files, i, optFailed, OptFailed);
      WithStatusStep(files, i, codeFailed, CodeFailed);
      WithStatusStep(files, i, running, Running);
      match Classify(file.text)
      case Success => success := success + [file];
      case OptFailed => optFailed := optFailed + [file];
      case CodeFailed => codeFailed := codeFailed + [file];
      case Running => running := running + [file];
    }
  }

  /** The loop step of `status` for the bucket `st` collected so far in `acc`. */
  lemma WithStatusStep(files: seq<Artifact>, i: nat, acc: seq<Artifact>, st: CalcStatus)
    requires i < |files|
    requires WithStatus(files, st) == acc + WithStatus(files[i..], st)
    ensures Classify(files[i].text) == st ==> WithStatus(files, st) == (acc + [files[i]]) + WithStatus(files[i + 1..], st)
    ensures Classify(files[i].text) != st ==> WithStatus(files, st) == acc + WithStatus(files[i + 1..], st)
  {
    assert files[i..][0] == files[i] && files[i..][1..] == files[i + 1..];
    var step := if Classify(files[i].text) == st then [files[i]] else [];
    assert WithStatus(files[i..], st) == step + WithStatus(files[i + 1..], st);
    assert acc + (step + WithStatus(files[i + 1..], st)) == (acc + step) + WithStatus(files[i + 1..], st);
    assert step == [] ==> acc + step == acc;
  }

  /** The four buckets partition the matches: every match lands in exactly one, as often as it was matched. */
  lemma {:induction false} StatusPartition(files: seq<Artifact>)
    ensures Partitioned(files)
    decreases |files|
  {
    if files != [] {
      StatusPartition(files[1..]);
      PartitionStep(files);
    }
  }

  /** The union of the four buckets is the list of matches. */
  predicate Partitioned(files: seq<Artifact>) {
    multiset(WithStatus(files, Success)) + multiset(WithStatus(files, OptFailed))
    + multiset(WithStatus(files, CodeFailed)) + multiset(WithStatus(files, Running))
    == multiset(files)
  }

  lemma PartitionStep(files: seq<Artifact>)
    requires files != [] && Partitioned(files[1..])
    ensures Partitioned(files)
  {
    var x, rest := files[0], files[1..];
    assert files == [x] + rest;
    BucketOfCons(files, Success);
    BucketOfCons(files, OptFailed);
    BucketOfCons(files, CodeFailed);
    BucketOfCons(files, Running);
    var bucket := Classify(x.text);
    var hs := if bucket == Success then multiset{x} else multiset{};
    var ho := if bucket == OptFailed then multiset{x} else multiset{};
    var hc := if bucket == CodeFailed then multiset{x} else multiset{};
    var hr := if bucket == Running then multiset{x} else multiset{};
    HeadsSum(x, bucket);
    SumOfBuckets(multiset(WithStatus(files, Success)), multiset(WithStatus(files, OptFailed)),
                 multiset(WithStatus(files, CodeFailed)), multiset(WithStatus(files, Running)),
                 hs, ho, hc, hr,
                 multiset(WithStatus(rest, Success)), multiset(WithStatus(rest, OptFailed)),
                 multiset(WithStatus(rest, CodeFailed)), multiset(WithStatus(rest, Running)));
  }

  /** A match is the head of exactly one bucket. */
  lemma HeadsSum(x: Artifact, bucket: CalcStatus)
    ensures (if bucket == Success then multiset{x} else multiset{})
            + (if bucket == OptFailed then multiset{x} else multiset{})
            + (if bucket == CodeFailed then multiset{x} else multiset{})
            + (if bucket == Running then multiset{x} else multiset{})
            == multiset{x}
  {
  }

  /** The bucket `st` of a non-empty list: its head if the head classifies into `st`, then the bucket of the rest. */
  lemma BucketOfCons(files: seq<Artifact>, st: CalcStatus)
    requires files != []
    ensures multiset(WithStatus(files, st))
            == (if Classify(files[0].text) == st then multiset{files[0]} else multiset{}) + multiset(WithStatus(files[1..], st))
  {
  }

  /** Multiset algebra of the partition step: four heads that add up to one match, each on top of a bucket. */
  lemma SumOfBuckets(s1: multiset<Artifact>, o1: multiset<Artifact>, c1: multiset<Artifact>, r1: multiset<Artifact>,
                     hs: multiset<Artifact>, ho: multiset<Artifact>, hc: multiset<Artifact>, hr: multiset<Artifact>,
                     s: multiset<Artifact>, o: multiset<Artifact>, c: multiset<Artifact>, r: multiset<Artifact>)
    requires s1 == hs + s && o1 == ho + o && c1 == hc + c && r1 == hr + r
    ensures s1 + o1 + c1 + r1 == (hs + ho + hc + hr) + (s + o + c + r)
  {
  }

  /** A bucket holds exactly the matches whose log classifies into it. */
  lemma {:induction false} WithStatusMembers(files: seq<Artifact>, st: CalcStatus)
    ensures forall a :: a in WithStatus(files, st) <==> a in files && Classify(a.text) == st
    decreases |files|
  {
    if files != [] {
      WithStatusMembers(files[1..], st);
      assert files == [files[0]] + files[1..];
    }
  }

  /** A bucket lists its matches in the order the glob returned them. */
  lemma {:induction false} WithStatusKeepsOrder(files: seq<Artifact>, st: CalcStatus)
    ensures IsSubsequence(WithStatus(files, st), files)
    decreases |files|
  {
    if files != [] {
      WithStatusKeepsOrder(files[1..], st);
      var rest := WithStatus(files[1..], st);
      if Classify(files[0].text) == st {
        assert ([files[0]] + rest)[1..] == rest;
      } else {
        assert [] + rest == rest;
      }
    }
  }

  lemma {:induction false} WithStatusAppend(f: seq<Artifact>, g: seq<Artifact>, st: CalcStatus)
    ensures WithStatus(f + g, st) == WithStatus(f, st) + WithStatus(g, st)
    decreases |f|
  {
    if f == [] {
      assert f + g == g;
    } else {
      var x, rest := f[0], f[1..];
      assert f == [x] + rest;
      WithStatusAppend(rest, g, st);
      WithStatusAppendStep(x, rest, g, st);
    }
  }

  lemma WithStatusAppendStep(x: Artifact, rest: seq<Artifact>, g: seq<Artifact>, st: CalcStatus)
    requires WithStatus(rest + g, st) == WithStatus(rest, st) + WithStatus(g, st)
    ensures WithStatus([x] + rest + g, st) == WithStatus([x] + rest, st) + WithStatus(g, st)
  {
    assert [x] + rest + g == [x] + (rest + g);
    WithStatusCons(x, rest, st);
    WithStatusCons(x, rest + g, st);
    var hd := if Classify(x.text) == st then [x] else [];
    assert hd + (WithStatus(rest, st) + WithStatus(g, st)) == (hd + WithStatus(rest, st)) + WithStatus(g, st);
  }

  lemma WithStatusCons(x: Artifact, rest: seq<Artifact>, st: CalcStatus)
    ensures WithStatus([x] + rest, st) == (if Classify(x.text) == st then [x] else []) + WithStatus(rest, st)
  {
    assert ([x] + rest)[0] == x && ([x] + rest)[1..] == rest;
  }

  // ---------------------------------------------------------------------------
  // The final energy: re.search(r'Final Energy: (.+)$', results)

  const ENERGY_MARKER := "Final Energy: "

  /**
   * What `(.+)$` captures when it starts at index `k`. Without the MULTILINE
   * flag `$` is the end of the text or the position just before a final
   * newline, and `.` never crosses a newline: the capture is the rest of the
   * text less one trailing newline, when that is non-empty and has no newline.
   */
  function GroupAt(text: string, k: nat): (r: Option<string>)
    requires k <= |text|
    ensures r.Some? ==> r.value != [] && '\n' !in r.value
                        && (text[k..] == r.value || text[k..] == r.value + "\n")
    ensures forall v :: v != [] && '\n' !in v && (text[k..] == v || text[k..] == v + "\n") ==> r == Some(v)
  {
    var rest := text[k..];
    var v := if rest != [] && rest[|rest| - 1] == '\n' then rest[..|rest| - 1] else rest;
    assert rest != [] && rest[|rest| - 1] == '\n' ==> rest == v + "\n";
    if v != [] && '\n' !in v then Some(v) else None
  }

  /** `re.search` from start index `p` on: the leftmost start at which the whole expression matches wins. */
  function SearchFrom(text: string, p: nat): Option<string>
    requires p <= |text|
    decreases |text| - p
  {
    if OccursAt(text, ENERGY_MARKER, p) && GroupAt(text, p + |ENERGY_MARKER|).Some? then
      GroupAt(text, p + |ENERGY_MARKER|)
    else if p == |text| then None
    else SearchFrom(text, p + 1)
  }

  /** `re.search(r'Final Energy: (.+)$', text).group(1)`; `None` where the search returns None. */
  function FinalEnergy(text: string): Option<string> {
    SearchFrom(text, 0)
  }

  lemma {:induction false} SearchFromSound(text: string, q: nat)
    requires q <= |text|
    ensures SearchFrom(text, q).Some? ==>
      exists p: nat :: q <= p && OccursAt(text, ENERGY_MARKER, p)
                       && GroupAt(text, p + |ENERGY_MARKER|) == SearchFrom(text, q)
    decreases |text| - q
  {
    if !(OccursAt(text, ENERGY_MARKER, q) && GroupAt(text, q + |ENERGY_MARKER|).Some?) && q < |text| {
      SearchFromSound(text, q + 1);
    }
  }

  /**
   * A captured energy is what follows the marker up to the end of the text
   * (ignoring one final newline): the marker sits on the last line.
   */
  lemma FinalEnergySound(text: string)
    ensures FinalEnergy(text).Some? ==>
      var v := FinalEnergy(text).value;
      v != [] && '\n' !in v
      && exists p: nat :: OccursAt(text, ENERGY_MARKER, p)
                          && (text[p + |ENERGY_MARKER|..] == v || text[p + |ENERGY_MARKER|..] == v + "\n")
  {
    SearchFromSound(text, 0);
  }

  lemma {:induction false} SearchFromComplete(text: string, q: nat, p: nat)
    requires q <= p && OccursAt(text, ENERGY_MARKER, p) && GroupAt(text, p + |ENERGY_MARKER|).Some?
    ensures SearchFrom(text, q).Some?
    ensures |SearchFrom(text, q).value| >= |GroupAt(text, p + |ENERGY_MARKER|).value|
    decreases p - q
  {
    var m := |ENERGY_MARKER|;
    if OccursAt(text, ENERGY_MARKER, q) && GroupAt(text, q + m).Some? {
      var vq, vp := GroupAt(text, q + m).value, GroupAt(text, p + m).value;
      assert |text[q + m..]| == |vq| || |text[q + m..]| == |vq| + 1;
      assert |text[p + m..]| == |vp| || |text[p + m..]| == |vp| + 1;
      assert text[q + m..] == vq + "\n" <==> text[|text| - 1] == '\n';
      assert text[p + m..] == vp + "\n" <==> text[|text| - 1] == '\n';
    } else {
      SearchFromComplete(text, q + 1, p);
    }
  }

  /**
   * Any occurrence of the marker followed by a well-formed rest of text makes
   * the search succeed, with a capture at least as long as the one at that
   * occurrence (an earlier start would capture more).
   */
  lemma FinalEnergyComplete(text: string, p: nat)
    requires OccursAt(text, ENERGY_MARKER, p) && GroupAt(text, p + |ENERGY_MARKER|).Some?
    ensures FinalEnergy(text).Some?
    ensures |FinalEnergy(text).value| >= |GroupAt(text, p + |ENERGY_MARKER|).value|
  {
    SearchFromComplete(text, 0, p);
  }

  lemma {:induction false} SearchSkipsEarlierLines(text: string, lineStart: nat, q: nat)
    requires 0 < lineStart < |text| && text[lineStart - 1] == '\n'
    requires q <= lineStart
    ensures SearchFrom(text, q) == SearchFrom(text, lineStart)
    decreases lineStart - q
  {
    var m := |ENERGY_MARKER|;
    if q < lineStart {
      if OccursAt(text, ENERGY_MARKER, q) {
        forall j | q <= j < q + m
          ensures text[j] != '\n'
        {
          assert text[j] == text[q..q + m][j - q] == ENERGY_MARKER[j - q];
        }
        assert q + m < lineStart;
        var rest := text[q + m..];
        assert rest[lineStart - 1 - q - m] == '\n';
        assert lineStart - 1 - q - m < |rest| - 1;
        assert GroupAt(text, q + m).None?;
      }
      SearchSkipsEarlierLines(text, lineStart, q + 1);
    }
  }

  /** A last line `Final Energy: v` (with or without one final newline) yields exactly `v`. */
  lemma FinalEnergyOfLastLine(pre: string, v: string, tail: string)
    requires pre == [] || pre[|pre| - 1] == '\n'
    requires v != [] && '\n' !in v && (tail == "" || tail == "\n")
    ensures FinalEnergy(pre + ENERGY_MARKER + v + tail) == Some(v)
  {
    var text := pre + ENERGY_MARKER + v + tail;
    SearchAtLastLine(pre, v, tail);
    if pre != [] {
      SearchSkipsEarlierLines(text, |pre|, 0);
    }
  }

  /** Started at the last line, the search captures its value. */
  lemma SearchAtLastLine(pre: string, v: string, tail: string)
    requires v != [] && '\n' !in v && (tail == "" || tail == "\n")
    ensures SearchFrom(pre + ENERGY_MARKER + v + tail, |pre|) == Some(v)
  {
    var text := pre + ENERGY_MARKER + v + tail;
    var m := |ENERGY_MARKER|;
    assert text == pre + (ENERGY_MARKER + (v + tail));
    assert text[|pre|..|pre| + m] == ENERGY_MARKER;
    assert text[|pre| + m..] == v + tail;
    assert GroupAt(text, |pre| + m) == Some(v);
  }

  // ---------------------------------------------------------------------------
  // Path-encoded metadata

  /** The exceptions that abort `extract_results` and `select_results`. */
  datatype ReadError =
    | UnsupportedLayout(relPath: seq<string>)  // NotImplementedError: neither 4 nor 6 segments
    | NoBasisSeparator(systemBasis: string)    // ValueError: rsplit('_', 1) gave a single part
    | NoFinalEnergy(relPath: seq<string>)      // AttributeError: the search returned None
    | NoIndexSeparator(system: string)         // IndexError: rsplit('_', 1)[1] of a system without '_'
    | NotAnInteger(x: string)                  // ValueError: np.array(output_x, dtype=int) on a non-integer x
    | OutOfRange(x: string)                    // OverflowError: np.array(output_x, dtype=int) on an x outside int64

  /** The fields `extract_results` reads off a relative path; `index` is absent for the 4-segment layout. */
  datatype PathMeta = PathMeta(system: string, basis: string, orbital: string, wfn: string,
                               index: Option<string>, filename: string)

  /**
   * `_/system_basis/orbital/filename` or `_/system_basis/orbital/wfn/index/filename`;
   * the first segment is discarded and `system_basis` is split at its last underscore.
   */
  function DecodePath(rel: seq<string>): (r: Result<PathMeta, ReadError>)
    ensures r == Err(UnsupportedLayout(rel)) <==> |rel| != 4 && |rel| != 6
    ensures r.Ok? <==> (|rel| == 4 || |rel| == 6) && '_' in rel[1]
    ensures (|rel| == 4 || |rel| == 6) && '_' !in rel[1] ==> r == Err(NoBasisSeparator(rel[1]))
    ensures r.Ok? ==> r.value.system + "_" + r.value.basis == rel[1] && '_' !in r.value.basis
                      && r.value.orbital == rel[2] && r.value.filename == rel[|rel| - 1]
    ensures r.Ok? && |rel| == 6 ==> r.value.wfn == rel[3] && r.value.index == Some(rel[4])
    ensures r.Ok? && |rel| == 4 ==> r.value.wfn == "hf" && r.value.index == None
  {
    if |rel| != 6 && |rel| != 4 then Err(UnsupportedLayout(rel))
    else match RSplitLast(rel[1], '_')
      case None => Err(NoBasisSeparator(rel[1]))
      case Some(parts) =>
        if |rel| == 6 then Ok(PathMeta(parts.0, parts.1, rel[2], rel[3], Some(rel[4]), rel[5]))
        else Ok(PathMeta(parts.0, parts.1, rel[2], "hf", None, rel[3]))
  }

  /** The relative path under which a result with metadata `m` is stored, below the top directory `top`. */
  function EncodePath(m: PathMeta, top: string): seq<string> {
    [top, m.system + "_" + m.basis, m.orbital]
    + (match m.index case Some(ix) => [m.wfn, ix] case None => [])
    + [m.filename]
  }

  /** Metadata the layout can express: a basis without underscores, and "hf" whenever there is no sample index. */
  predicate Encodable(m: PathMeta) {
    '_' !in m.basis && (m.index.None? ==> m.wfn == "hf")
  }

  /** Storing a result and decoding its path gives back its metadata. */
  lemma DecodeEncode(m: PathMeta, top: string)
    requires Encodable(m)
    ensures DecodePath(EncodePath(m, top)) == Ok(m)
  {
    RSplitLastOf(m.system, m.basis, '_');
    assert m.system + "_" + m.basis == m.system + ['_'] + m.basis;
  }

  /** Every path the decoder accepts is the stored form of the metadata it yields. */
  lemma EncodeDecode(rel: seq<string>)
    requires DecodePath(rel).Ok?
    ensures Encodable(DecodePath(rel).value)
    ensures EncodePath(DecodePath(rel).value, rel[0]) == rel
  {
    var m := DecodePath(rel).value;
    if |rel| == 6 {
      assert EncodePath(m, rel[0]) == [rel[0], rel[1], rel[2]] + [rel[3], rel[4]] + [rel[5]];
    } else {
      assert EncodePath(m, rel[0]) == [rel[0], rel[1], rel[2]] + [] + [rel[3]];
    }
  }

  // ---------------------------------------------------------------------------
  // Extraction

  /** One dictionary appended by `extract_results`. */
  datatype Record = Record(meta: PathMeta, energy: string)

  /** The body of the extraction loop for one file, given its path relative to the working directory. */
  function DecodeArtifact(rel: seq<string>, text: string): Result<Record, ReadError> {
    match DecodePath(rel)
    case Err(e) => Err(e)
    case Ok(meta) =>
      match FinalEnergy(text)
      case None => Err(NoFinalEnergy(rel))
      case Some(energy) => Ok(Record(meta, energy))
  }

  /** `os.path.commonpath([cwd, path]) == cwd` for normalised absolute paths, with the path relative to cwd. */
  function Relative(cwd: seq<string>, path: seq<string>): (r: Option<seq<string>>)
    ensures r.Some? <==> cwd <= path
    ensures r.Some? ==> cwd + r.value == path
  {
    if cwd <= path then Some(path[|cwd|..]) else None
  }

  function Prepend<T, E>(xs: seq<T>, r: Result<seq<T>, E>): Result<seq<T>, E> {
    match r
    case Ok(ys) => Ok(xs + ys)
    case Err(e) => Err(e)
  }

  lemma PrependNil<T, E>(r: Result<seq<T>, E>)
    ensures Prepend([], r) == r
  {
    if r.Ok? {
      assert [] + r.value == r.value;
    }
  }

  lemma PrependPrepend<T, E>(xs: seq<T>, ys: seq<T>, r: Result<seq<T>, E>)
    ensures Prepend(xs, Prepend(ys, r)) == Prepend(xs + ys, r)
  {
    if r.Ok? {
      assert xs + (ys + r.value) == (xs + ys) + r.value;
    }
  }

  /** The extraction loop over the given artifacts: the first error aborts it. */
  function ExtractFrom(cwd: seq<string>, arts: seq<Artifact>): Result<seq<Record>, ReadError>
    decreases |arts|
  {
    if arts == [] then Ok([])
    else match Relative(cwd, arts[0].path)
      case None => ExtractFrom(cwd, arts[1..])
      case Some(rel) =>
        match DecodeArtifact(rel, arts[0].text)
        case Err(e) => Err(e)
        case Ok(rec) => Prepend([rec], ExtractFrom(cwd, arts[1..]))
  }

  /** `extract_results`: only the logs classified as successful are read. */
  function Extract(cwd: seq<string>, files: seq<Artifact>): Result<seq<Record>, ReadError> {
    ExtractFrom(cwd, WithStatus(files, Success))
  }

  /** `extract_results`: classify the matches, then decode every successful one under the working directory. */
  method ExtractResults(cwd: seq<string>, files: seq<Artifact>) returns (r: Result<seq<Record>, ReadError>)
    ensures r == Extract(cwd, files)
  {
    var success, optFailed, codeFailed, running := Status(files);
    var output: seq<Record> := [];
    assert success[0..] == success;
    PrependNil(ExtractFrom(cwd, success));
    for i := 0 to |success|
      invariant ExtractFrom(cwd, success) == Prepend(output, ExtractFrom(cwd, success[i..]))
    {
      var file := success[i];
      assert success[i..][0] == file && success[i..][1..] == success[i + 1..];
      if !(cwd <= file.path) {
        continue;
      }
      var rel := file.path[|cwd|..];
      var rec := DecodeArtifact(rel, file.text);
      if rec.Err? {
        return Err(rec.error);
      }
      PrependPrepend(output, [rec.value], ExtractFrom(cwd, success[i + 1..]));
      output := output + [rec.value];
    }
    assert success[|success|..] == [] && output + [] == output;
    r := Ok(output);
  }

  /** The artifacts that lie under the working directory, in order. */
  function InRoot(cwd: seq<string>, arts: seq<Artifact>): (r: seq<Artifact>)
    ensures forall a :: a in r ==> a in arts && cwd <= a.path
    decreases |arts|
  {
    if arts == [] then []
    else (if cwd <= arts[0].path then [arts[0]] else []) + InRoot(cwd, arts[1..])
  }

  /** The successful logs that `extract_results` reads: those under the working directory. */
  function Candidates(cwd: seq<string>, files: seq<Artifact>): seq<Artifact> {
    InRoot(cwd, WithStatus(files, Success))
  }

  function DecodeUnder(cwd: seq<string>, a: Artifact): Result<Record, ReadError>
    requires cwd <= a.path
  {
    DecodeArtifact(a.path[|cwd|..], a.text)
  }

  /**
   * File `k` of the candidates fails with `e` and every earlier one decodes:
   * the loop at `extract_results` raises `e` at file `k`.
   */
  predicate FailsFirstAt(cwd: seq<string>, cands: seq<Artifact>, k: int, e: ReadError) {
    0 <= k < |cands| && cwd <= cands[k].path && DecodeUnder(cwd, cands[k]) == Err(e)
    && forall j :: 0 <= j < k ==> cwd <= cands[j].path && DecodeUnder(cwd, cands[j]).Ok?
  }

  lemma ExtractFromMeaning(cwd: seq<string>, arts: seq<Artifact>)
    ensures ExtractFrom(cwd, arts).Ok? <==> forall a :: a in InRoot(cwd, arts) ==> DecodeUnder(cwd, a).Ok?
    ensures ExtractFrom(cwd, arts).Ok? ==>
      |ExtractFrom(cwd, arts).value| == |InRoot(cwd, arts)|
      && forall k :: 0 <= k < |InRoot(cwd, arts)| ==>
           DecodeUnder(cwd, InRoot(cwd, arts)[k]) == Ok(ExtractFrom(cwd, arts).value[k])
    ensures ExtractFrom(cwd, arts).Err? ==>
      exists k :: FailsFirstAt(cwd, InRoot(cwd, arts), k, ExtractFrom(cwd, arts).error)
  {
    ExtractFromOkIff(cwd, arts);
    if ExtractFrom(cwd, arts).Ok? {
      ExtractFromValues(cwd, arts);
    } else {
      ExtractFromErrorOrigin(cwd, arts);
    }
  }

  lemma {:induction false} ExtractFromOkIff(cwd: seq<string>, arts: seq<Artifact>)
    ensures ExtractFrom(cwd, arts).Ok? <==> forall a :: a in InRoot(cwd, arts) ==> DecodeUnder(cwd, a).Ok?
    decreases |arts|
  {
    if arts != [] {
      ExtractFromOkIff(cwd, arts[1..]);
      var rest := InRoot(cwd, arts[1..]);
      if cwd <= arts[0].path {
        assert InRoot(cwd, arts) == [arts[0]] + rest;
        assert forall a :: a in InRoot(cwd, arts) <==> a == arts[0] || a in rest;
      } else {
        assert InRoot(cwd, arts) == [] + rest;
      }
    }
  }

  lemma {:induction false} ExtractFromValues(cwd: seq<string>, arts: seq<Artifact>)
    requires ExtractFrom(cwd, arts).Ok?
    ensures |ExtractFrom(cwd, arts).value| == |InRoot(cwd, arts)|
    ensures forall k :: 0 <= k < |InRoot(cwd, arts)| ==>
              DecodeUnder(cwd, InRoot(cwd, arts)[k]) == Ok(ExtractFrom(cwd, arts).value[k])
    decreases |arts|
  {
    if arts != [] {
      var rest := InRoot(cwd, arts[1..]);
      if cwd <= arts[0].path {
        var d := DecodeUnder(cwd, arts[0]);
        assert d.Ok? && ExtractFrom(cwd, arts[1..]).Ok?;
        ExtractFromValues(cwd, arts[1..]);
        var recs := ExtractFrom(cwd, arts[1..]).value;
        assert InRoot(cwd, arts) == [arts[0]] + rest;
        assert ExtractFrom(cwd, arts).value == [d.value] + recs;
        forall k | 0 <= k < |InRoot(cwd, arts)|
          ensures DecodeUnder(cwd, InRoot(cwd, arts)[k]) == Ok(ExtractFrom(cwd, arts).value[k])
        {
          if k > 0 {
            assert InRoot(cwd, arts)[k] == rest[k - 1];
          }
        }
      } else {
        ExtractFromValues(cwd, arts[1..]);
        assert InRoot(cwd, arts) == [] + rest;
      }
    }
  }

  /** A failed extraction fails with the error of the first file under the working directory that does not decode. */
  lemma {:induction false} ExtractFromErrorOrigin(cwd: seq<string>, arts: seq<Artifact>)
    requires ExtractFrom(cwd, arts).Err?
    ensures exists k :: FailsFirstAt(cwd, InRoot(cwd, arts), k, ExtractFrom(cwd, arts).error)
    decreases |arts|
  {
    var rest := InRoot(cwd, arts[1..]);
    if cwd <= arts[0].path {
      var all := InRoot(cwd, arts);
      assert all == [arts[0]] + rest;
      if DecodeUnder(cwd, arts[0]).Err? {
        assert all[0] == arts[0];
        assert FailsFirstAt(cwd, all, 0, ExtractFrom(cwd, arts).error);
      } else {
        var e := ExtractFrom(cwd, arts[1..]).error;
        ExtractFromErrorOrigin(cwd, arts[1..]);
        var k :| FailsFirstAt(cwd, rest, k, e);
        FirstFailureCons(cwd, arts[0], rest, k, e);
        assert FailsFirstAt(cwd, all, k + 1, ExtractFrom(cwd, arts).error);
      }
    } else {
      assert InRoot(cwd, arts) == [] + rest == rest;
      assert ExtractFrom(cwd, arts) == ExtractFrom(cwd, arts[1..]);
      ExtractFromErrorOrigin(cwd, arts[1..]);
      var k :| FailsFirstAt(cwd, rest, k, ExtractFrom(cwd, arts[1..]).error);
      assert FailsFirstAt(cwd, InRoot(cwd, arts), k, ExtractFrom(cwd, arts).error);
    }
  }

  /** A decoding file in front moves the first failure one place back. */
  lemma FirstFailureCons(cwd: seq<string>, a: Artifact, rest: seq<Artifact>, k: nat, e: ReadError)
    requires cwd <= a.path && DecodeUnder(cwd, a).Ok?
    requires FailsFirstAt(cwd, rest, k, e)
    ensures FailsFirstAt(cwd, [a] + rest, k + 1, e)
  {
    var all := [a] + rest;
    assert all[k + 1] == rest[k];
    forall j | 0 <= j < k + 1
      ensures cwd <= all[j].path && DecodeUnder(cwd, all[j]).Ok?
    {
      if j > 0 {
        assert all[j] == rest[j - 1];
      }
    }
  }

  /**
   * The result of `extract_results`: it fails exactly when one of the
   * successful logs under the working directory fails to decode, with the
   * error of the first such log in glob order; otherwise it holds one record per such log, in
   * order, each the decoding of that log.
   */
  lemma ExtractMeaning(cwd: seq<string>, files: seq<Artifact>)
    ensures Extract(cwd, files).Ok? <==> forall a :: a in Candidates(cwd, files) ==> DecodeUnder(cwd, a).Ok?
    ensures Extract(cwd, files).Ok? ==>
      |Extract(cwd, files).value| == |Candidates(cwd, files)|
      && forall k :: 0 <= k < |Candidates(cwd, files)| ==>
           DecodeUnder(cwd, Candidates(cwd, files)[k]) == Ok(Extract(cwd, files).value[k])
    ensures Extract(cwd, files).Err? ==>
      exists k :: FailsFirstAt(cwd, Candidates(cwd, files), k, Extract(cwd, files).error)
  {
    ExtractFromMeaning(cwd, WithStatus(files, Success));
  }

  lemma {:induction false} ExtractFromSkips(cwd: seq<string>, before: seq<Artifact>, outside: Artifact, after: seq<Artifact>)
    requires !(cwd <= outside.path)
    ensures ExtractFrom(cwd, before + [outside] + after) == ExtractFrom(cwd, before + after)
    decreases |before|
  {
    if before == [] {
      assert before + [outside] + after == [outside] + after;
      assert ([outside] + after)[1..] == after;
      assert before + after == after;
    } else {
      assert (before + [outside] + after)[0] == before[0];
      assert (before + [outside] + after)[1..] == before[1..] + [outside] + after;
      assert (before + after)[0] == before[0];
      assert (before + after)[1..] == before[1..] + after;
      ExtractFromSkips(cwd, before[1..], outside, after);
    }
  }

  /** A file outside the working directory never influences the result, wherever the glob returned it. */
  lemma ExtractIgnoresOutsideRoot(cwd: seq<string>, before: seq<Artifact>, outside: Artifact, after: seq<Artifact>)
    requires !(cwd <= outside.path)
    ensures Extract(cwd, before + [outside] + after) == Extract(cwd, before + after)
  {
    WithStatusAppend(before + [outside], after, Success);
    WithStatusAppend(before, [outside], Success);
    WithStatusAppend(before, after, Success);
    var wb, wa := WithStatus(before, Success), WithStatus(after, Success);
    var wo := WithStatus([outside], Success);
    assert [outside][1..] == [];
    if Classify(outside.text) == Success {
      assert wo == [outside];
      ExtractFromSkips(cwd, wb, outside, wa);
    } else {
      assert wo == [];
      assert wb + wo + wa == wb + wa;
    }
  }

  /** One successful log under the working directory at an unsupported depth aborts the whole call. */
  lemma UnsupportedLayoutAborts(cwd: seq<string>, files: seq<Artifact>, a: Artifact)
    requires a in files && Classify(a.text) == Success && cwd <= a.path
    requires |a.path| - |cwd| != 4 && |a.path| - |cwd| != 6
    ensures Extract(cwd, files).Err?
  {
    WithStatusMembers(files, Success);
    InRootMembers(cwd, WithStatus(files, Success));
    ExtractMeaning(cwd, files);
    assert DecodeUnder(cwd, a).Err?;
  }

  /**
   * A successful log under the working directory whose layout decodes but
   * whose text has no `Final Energy:` line makes `.group` raise
   * AttributeError, unless an earlier candidate has already failed.
   */
  lemma MissingEnergyAborts(cwd: seq<string>, files: seq<Artifact>, k: nat)
    requires k < |Candidates(cwd, files)|
    requires cwd <= Candidates(cwd, files)[k].path
    requires DecodePath(Candidates(cwd, files)[k].path[|cwd|..]).Ok?
    requires FinalEnergy(Candidates(cwd, files)[k].text).None?
    requires forall j :: 0 <= j < k ==> cwd <= Candidates(cwd, files)[j].path && DecodeUnder(cwd, Candidates(cwd, files)[j]).Ok?
    ensures Extract(cwd, files) == Err(NoFinalEnergy(Candidates(cwd, files)[k].path[|cwd|..]))
  {
    var cands := Candidates(cwd, files);
    var e := NoFinalEnergy(cands[k].path[|cwd|..]);
    assert FailsFirstAt(cwd, cands, k, e);
    ExtractMeaning(cwd, files);
    assert Extract(cwd, files).Err?;
    var k' :| FailsFirstAt(cwd, cands, k', Extract(cwd, files).error);
    FailsFirstAtUnique(cwd, cands, k, e, k', Extract(cwd, files).error);
  }

  /** The first failing candidate, and so the error, is unique. */
  lemma FailsFirstAtUnique(cwd: seq<string>, cands: seq<Artifact>, k: int, e: ReadError, k': int, e': ReadError)
    requires FailsFirstAt(cwd, cands, k, e) && FailsFirstAt(cwd, cands, k', e')
    ensures k == k' && e == e'
  {
  }

  lemma {:induction false} InRootMembers(cwd: seq<string>, arts: seq<Artifact>)
    ensures forall a :: a in InRoot(cwd, arts) <==> a in arts && cwd <= a.path
    decreases |arts|
  {
    if arts != [] {
      InRootMembers(cwd, arts[1..]);
      assert arts == [arts[0]] + arts[1..];
    }
  }

  // ---------------------------------------------------------------------------
  // Selection

  /** The arguments of `select_results`: a wildcard for the system, exact values for the rest. */
  datatype Criteria = Criteria(system: string, basis: string, orbital: string, wfn: string)

  predicate Wanted(r: Record, c: Criteria) {
    Wildcard.Matches(r.meta.system, c.system) && r.meta.basis == c.basis
    && r.meta.orbital == c.orbital && r.meta.wfn == c.wfn
  }

  /** The records that pass the filter of `select_results`, in input order. */
  function Selected(recs: seq<Record>, c: Criteria): seq<Record>
    decreases |recs|
  {
    if recs == [] then []
    else (if Wanted(recs[0], c) then [recs[0]] else []) + Selected(recs[1..], c)
  }

  /** `system.rsplit('_', 1)[1]`: the text after the last underscore; `None` where Python raises IndexError. */
  function XValue(system: string): (r: Option<string>)
    ensures r.None? <==> '_' !in system
    ensures r.Some? ==> '_' !in r.value && |r.value| < |system|
                        && system[|system| - |r.value| - 1] == '_' && system[|system| - |r.value|..] == r.value
  {
    match RSplitLast(system, '_')
    case None => None
    case Some(parts) =>
      assert system == parts.0 + ['_'] + parts.1;
      assert system[|parts.0|] == '_' && system[|parts.0| + 1..] == parts.1;
      Some(parts.1)
  }

  function PrependColumns(xs: seq<string>, ys: seq<string>, r: Result<(seq<string>, seq<string>), ReadError>)
    : Result<(seq<string>, seq<string>), ReadError>
  {
    match r
    case Ok(cols) => Ok((xs + cols.0, ys + cols.1))
    case Err(e) => Err(e)
  }

  lemma PrependColumnsNil(r: Result<(seq<string>, seq<string>), ReadError>)
    ensures PrependColumns([], [], r) == r
  {
    if r.Ok? {
      assert [] + r.value.0 == r.value.0 && [] + r.value.1 == r.value.1;
    }
  }

  lemma PrependColumnsTwice(xs: seq<string>, ys: seq<string>, xs': seq<string>, ys': seq<string>,
                            r: Result<(seq<string>, seq<string>), ReadError>)
    ensures PrependColumns(xs, ys, PrependColumns(xs', ys', r)) == PrependColumns(xs + xs', ys + ys', r)
  {
    if r.Ok? {
      assert xs + (xs' + r.value.0) == (xs + xs') + r.value.0;
      assert ys + (ys' + r.value.1) == (ys + ys') + r.value.1;
    }
  }

  /** The selection loop: x values and energies of the wanted records; the first system without '_' aborts it. */
  function SelectFrom(recs: seq<Record>, c: Criteria): (r: Result<(seq<string>, seq<string>), ReadError>)
    ensures r.Ok? ==> |r.value.0| == |r.value.1| <= |recs|
    decreases |recs|
  {
    if recs == [] then Ok(([], []))
    else if !Wanted(recs[0], c) then SelectFrom(recs[1..], c)
    else match XValue(recs[0].meta.system)
      case None => Err(NoIndexSeparator(recs[0].meta.system))
      case Some(x) => PrependColumns([x], [recs[0].energy], SelectFrom(recs[1..], c))
  }

  /** The range of numpy's default integer type on a 64-bit POSIX system, int64. */
  predicate InInt64(n: int) {
    -0x8000_0000_0000_0000 <= n < 0x8000_0000_0000_0000
  }

  /**
   * One element of `np.array(xs, dtype=int)`: the text read as an integer,
   * which must fit in int64.
   */
  function Int64Of(x: string): (r: Result<int, ReadError>)
    ensures r.Ok? <==> ParseInt(x).Some? && InInt64(ParseInt(x).value)
    ensures r.Ok? ==> ParseInt(x) == Some(r.value)
    ensures ParseInt(x).None? ==> r == Err(NotAnInteger(x))
    ensures ParseInt(x).Some? && !InInt64(ParseInt(x).value) ==> r == Err(OutOfRange(x))
  {
    match ParseInt(x)
    case None => Err(NotAnInteger(x))
    case Some(n) => if InInt64(n) then Ok(n) else Err(OutOfRange(x))
  }

  /**
   * `np.array(xs, dtype=int)`: every x read as an int64 integer, in order;
   * the first x that `int` rejects raises ValueError, the first one outside
   * int64 OverflowError.
   */
  function IntColumn(xs: seq<string>): (r: Result<seq<int>, ReadError>)
    ensures r.Ok? <==> forall k :: 0 <= k < |xs| ==> Int64Of(xs[k]).Ok?
    ensures r.Ok? ==> |r.value| == |xs| && forall k :: 0 <= k < |xs| ==> Int64Of(xs[k]) == Ok(r.value[k])
    ensures r.Err? ==> exists k :: 0 <= k < |xs| && Int64Of(xs[k]).Err? && r.error == Int64Of(xs[k]).error
                                   && forall j :: 0 <= j < k ==> Int64Of(xs[j]).Ok?
    decreases |xs|
  {
    if xs == [] then Ok([])
    else match Int64Of(xs[0])
      case Err(e) => Err(e)
      case Ok(n) =>
        match IntColumn(xs[1..])
        case Err(e) =>
          assert forall k :: 1 <= k < |xs| ==> xs[1..][k - 1] == xs[k];
          Err(e)
        case Ok(ns) =>
          assert forall k :: 1 <= k < |xs| ==> xs[1..][k - 1] == xs[k];
          Ok([n] + ns)
  }

  /**
   * The whole of `select_results`: the selection loop, whose IndexError comes
   * first, then the conversion of the x column to integers. The energies stay
   * the strings the logs hold.
   */
  function Select(recs: seq<Record>, c: Criteria): Result<(seq<int>, seq<string>), ReadError> {
    match SelectFrom(recs, c)
    case Err(e) => Err(e)
    case Ok(cols) =>
      match IntColumn(cols.0)
      case Err(e) => Err(e)
      case Ok(ns) => Ok((ns, cols.1))
  }

  /** `select_results`: keep the wanted records and append their x value and energy to two parallel lists. */
  method SelectResults(recs: seq<Record>, c: Criteria) returns (r: Result<(seq<int>, seq<string>), ReadError>)
    ensures r == Select(recs, c)
  {
    var outputX: seq<string> := [];
    var outputY: seq<string> := [];
    assert recs[0..] == recs;
    PrependColumnsNil(SelectFrom(recs, c));
    for i := 0 to |recs|
      invariant SelectFrom(recs, c) == PrependColumns(outputX, outputY, SelectFrom(recs[i..], c))
    {
      var rec := recs[i];
      assert recs[i..][0] == rec && recs[i..][1..] == recs[i + 1..];
      if !Wanted(rec, c) {
        continue;
      }
      var x := XValue(rec.meta.system);
      if x.None? {
        return Err(NoIndexSeparator(rec.meta.system));
      }
      PrependColumnsTwice(outputX, outputY, [x.value], [rec.energy], SelectFrom(recs[i + 1..], c));
      outputX := outputX + [x.value];
      outputY := outputY + [rec.energy];
    }
    assert recs[|recs|..] == [] && outputX + [] == outputX && outputY + [] == outputY;
    var xs := IntColumn(outputX);
    if xs.Err? {
      return Err(xs.error);
    }
    r := Ok((xs.value, outputY));
  }

  /** A record is selected exactly when it passes all four criteria. */
  lemma {:induction false} SelectedMembers(recs: seq<Record>, c: Criteria)
    ensures forall r :: r in Selected(recs, c) <==> r in recs && Wanted(r, c)
    decreases |recs|
  {
    if recs != [] {
      SelectedMembers(recs[1..], c);
      assert recs == [recs[0]] + recs[1..];
    }
  }

  /** The selection keeps the input order. */
  lemma {:induction false} SelectedKeepsOrder(recs: seq<Record>, c: Criteria)
    ensures IsSubsequence(Selected(recs, c), recs)
    decreases |recs|
  {
    if recs != [] {
      SelectedKeepsOrder(recs[1..], c);
      var rest := Selected(recs[1..], c);
      if Wanted(recs[0], c) {
        assert ([recs[0]] + rest)[1..] == rest;
      } else {
        assert [] + rest == rest;
      }
    }
  }

  /** `select_results` fails exactly when some selected system has no underscore. */
  lemma {:induction false} SelectFailsIff(recs: seq<Record>, c: Criteria)
    ensures SelectFrom(recs, c).Ok? <==> forall r :: r in Selected(recs, c) ==> '_' in r.meta.system
    decreases |recs|
  {
    if recs != [] {
      SelectFailsIff(recs[1..], c);
      var rest := Selected(recs[1..], c);
      if Wanted(recs[0], c) {
        assert Selected(recs, c) == [recs[0]] + rest;
      } else {
        assert Selected(recs, c) == [] + rest;
      }
    }
  }

  /** Entry `k` of `xs` and `ys` holds the x value and the energy of record `k` of `sel`. */
  predicate Parallel(sel: seq<Record>, xs: seq<string>, ys: seq<string>) {
    |xs| == |sel| && |ys| == |sel|
    && forall k :: 0 <= k < |sel| ==> XValue(sel[k].meta.system) == Some(xs[k]) && ys[k] == sel[k].energy
  }

  lemma ParallelCons(r: Record, x: string, sel: seq<Record>, xs: seq<string>, ys: seq<string>)
    requires XValue(r.meta.system) == Some(x) && Parallel(sel, xs, ys)
    ensures Parallel([r] + sel, [x] + xs, [r.energy] + ys)
  {
    var sel', xs', ys' := [r] + sel, [x] + xs, [r.energy] + ys;
    forall k | 0 <= k < |sel'|
      ensures XValue(sel'[k].meta.system) == Some(xs'[k]) && ys'[k] == sel'[k].energy
    {
      if k > 0 {
        assert sel'[k] == sel[k - 1] && xs'[k] == xs[k - 1] && ys'[k] == ys[k - 1];
      }
    }
  }

  /**
   * The two outputs of `select_results` are parallel: entry `k` holds the x
   * value (the text after the last underscore of the system) and the energy
   * of the `k`-th selected record.
   */
  lemma {:induction false} SelectColumns(recs: seq<Record>, c: Criteria)
    requires SelectFrom(recs, c).Ok?
    ensures Parallel(Selected(recs, c), SelectFrom(recs, c).value.0, SelectFrom(recs, c).value.1)
    decreases |recs|
  {
    if recs != [] {
      var r, rest := recs[0], recs[1..];
      assert recs == [r] + rest;
      SelectRestOk(recs, c);
      SelectColumns(rest, c);
      if Wanted(r, c) {
        SelectColumnsTake(r, rest, c);
      } else {
        SelectColumnsSkip(r, rest, c);
      }
    }
  }

  /** A selection that succeeds succeeds on the rest of the list too. */
  lemma SelectRestOk(recs: seq<Record>, c: Criteria)
    requires recs != [] && SelectFrom(recs, c).Ok?
    ensures SelectFrom(recs[1..], c).Ok?
  {
  }

  lemma SelectedCons(r: Record, rest: seq<Record>, c: Criteria)
    ensures Selected([r] + rest, c) == (if Wanted(r, c) then [r] else []) + Selected(rest, c)
  {
    assert ([r] + rest)[0] == r && ([r] + rest)[1..] == rest;
  }

  lemma SelectColumnsTake(r: Record, rest: seq<Record>, c: Criteria)
    requires Wanted(r, c) && SelectFrom([r] + rest, c).Ok? && SelectFrom(rest, c).Ok?
    requires Parallel(Selected(rest, c), SelectFrom(rest, c).value.0, SelectFrom(rest, c).value.1)
    ensures Parallel(Selected([r] + rest, c), SelectFrom([r] + rest, c).value.0, SelectFrom([r] + rest, c).value.1)
  {
    assert ([r] + rest)[0] == r && ([r] + rest)[1..] == rest;
    var x := XValue(r.meta.system).value;
    var tail := SelectFrom(rest, c).value;
    SelectedCons(r, rest, c);
    SelectTakes(r, rest, c, x);
    ParallelCons(r, x, Selected(rest, c), tail.0, tail.1);
  }

  lemma SelectColumnsSkip(r: Record, rest: seq<Record>, c: Criteria)
    requires !Wanted(r, c) && SelectFrom(rest, c).Ok?
    requires Parallel(Selected(rest, c), SelectFrom(rest, c).value.0, SelectFrom(rest, c).value.1)
    ensures Parallel(Selected([r] + rest, c), SelectFrom([r] + rest, c).value.0, SelectFrom([r] + rest, c).value.1)
  {
    SelectedCons(r, rest, c);
    SelectSkips(r, rest, c);
    assert [] + Selected(rest, c) == Selected(rest, c);
  }

  /** A record the filter rejects leaves the selection of the rest unchanged. */
  lemma SelectSkips(r: Record, rest: seq<Record>, c: Criteria)
    requires !Wanted(r, c)
    ensures SelectFrom([r] + rest, c) == SelectFrom(rest, c)
  {
    assert ([r] + rest)[1..] == rest;
  }

  /** A wanted record puts its x value and energy in front of the selection of the rest. */
  lemma SelectTakes(r: Record, rest: seq<Record>, c: Criteria, x: string)
    requires Wanted(r, c) && XValue(r.meta.system) == Some(x)
    ensures SelectFrom([r] + rest, c) == PrependColumns([x], [r.energy], SelectFrom(rest, c))
  {
    assert ([r] + rest)[1..] == rest;
  }

  /** A calculation record of the `h2_<i>` dissociation series at STO-3G/RHF/HF. */
  function H2Point(x: string, energy: string): Record {
    Record(PathMeta("h2_" + x, "sto3g", "rhf", "hf", None, "output.log"), energy)
  }

  const H2_SERIES := Criteria("h2_*", "sto3g", "rhf", "hf")

  /** Every point of the series passes `h2_*` and has its index as x value. */
  lemma H2PointWanted(x: string, energy: string)
    requires '_' !in x
    ensures Wanted(H2Point(x, energy), H2_SERIES) && XValue(H2Point(x, energy).meta.system) == Some(x)
  {
    var system := H2Point(x, energy).meta.system;
    assert H2_SERIES.system == "h2_" + "*";
    assert Wildcard.IsLiteral("h2_");
    Wildcard.LiteralStarIff(system, "h2_");
    RSplitLastOf("h2", x, '_');
    assert "h2" + ['_'] + x == system;
  }

  /** A system that does not begin with `h2_` is not part of the series. */
  lemma H2OtherRejected(other: Record)
    requires !("h2_" <= other.meta.system)
    ensures !Wanted(other, H2_SERIES)
  {
    assert H2_SERIES.system == "h2_" + "*";
    assert Wildcard.IsLiteral("h2_");
    Wildcard.LiteralStarIff(other.meta.system, "h2_");
  }

  /** `h2_*` picks the `h2_` points out of a mixed list and reads their index as x, in order. */
  lemma H2SeriesScenario(x0: string, e0: string, x1: string, e1: string, other: Record)
    requires '_' !in x0 && '_' !in x1
    requires !("h2_" <= other.meta.system)
    ensures SelectFrom([H2Point(x0, e0), other, H2Point(x1, e1)], H2_SERIES) == Ok(([x0, x1], [e0, e1]))
  {
    var h0, h1 := H2Point(x0, e0), H2Point(x1, e1);
    H2PointWanted(x0, e0);
    H2PointWanted(x1, e1);
    H2OtherRejected(other);
    SelectTakes(h1, [], H2_SERIES, x1);
    SelectSkips(other, [h1], H2_SERIES);
    SelectTakes(h0, [other, h1], H2_SERIES, x0);
    assert [h1] + [] == [h1];
    assert SelectFrom([], H2_SERIES) == Ok(([], []));
    assert [x1] + [] == [x1] && [e1] + [] == [e1];
    assert SelectFrom([h1], H2_SERIES) == Ok(([x1], [e1]));
    assert [other] + [h1] == [other, h1];
    assert [h0] + [other, h1] == [h0, other, h1];
    assert [x0] + [x1] == [x0, x1] && [e0] + [e1] == [e0, e1];
  }

  /**
   * The meaning of `select_results`: it succeeds exactly when every selected
   * system has an x value that reads as an int64 integer, and then returns,
   * for the `k`-th selected record, that integer and the record's energy. A
   * system without underscore raises before any x is converted: the first
   * such system in the selection. Otherwise the first x that does not
   * convert raises.
   */
  lemma SelectMeaning(recs: seq<Record>, c: Criteria)
    ensures Select(recs, c).Ok? <==> forall k :: 0 <= k < |Selected(recs, c)| ==> XValueIsInt(Selected(recs, c)[k])
    ensures var sel := Selected(recs, c);
            Select(recs, c).Ok? ==>
              |Select(recs, c).value.0| == |sel| && |Select(recs, c).value.1| == |sel|
              && forall k :: 0 <= k < |sel| ==>
                   XValue(sel[k].meta.system).Some?
                   && ParseInt(XValue(sel[k].meta.system).value) == Some(Select(recs, c).value.0[k])
                   && InInt64(Select(recs, c).value.0[k])
                   && Select(recs, c).value.1[k] == sel[k].energy
    ensures SelectFrom(recs, c).Err? ==> Select(recs, c) == Err(SelectFrom(recs, c).error)
    ensures var sel := Selected(recs, c);
            SelectFrom(recs, c).Err? ==>
              exists k :: 0 <= k < |sel| && XValue(sel[k].meta.system).None?
                          && Select(recs, c) == Err(NoIndexSeparator(sel[k].meta.system))
                          && forall j :: 0 <= j < k ==> XValue(sel[j].meta.system).Some?
    ensures var sel := Selected(recs, c);
            SelectFrom(recs, c).Ok? && Select(recs, c).Err? ==>
              exists k :: 0 <= k < |sel| && XValue(sel[k].meta.system).Some?
                          && Int64Of(XValue(sel[k].meta.system).value).Err?
                          && Select(recs, c) == Err(Int64Of(XValue(sel[k].meta.system).value).error)
                          && forall j :: 0 <= j < k ==> XValueIsInt(sel[j])
  {
    SelectOkIff(recs, c);
    if Select(recs, c).Ok? {
      SelectValues(recs, c);
    } else if SelectFrom(recs, c).Err? {
      LoopFailure(recs, c);
    } else {
      SelectColumns(recs, c);
      ConversionFailure(Selected(recs, c), SelectFrom(recs, c).value.0, SelectFrom(recs, c).value.1);
    }
  }

  /** The x value of a record's system reads as an int64 integer. */
  predicate XValueIsInt(r: Record) {
    XValue(r.meta.system).Some? && Int64Of(XValue(r.meta.system).value).Ok?
  }

  lemma SelectOkIff(recs: seq<Record>, c: Criteria)
    ensures Select(recs, c).Ok? <==> forall k :: 0 <= k < |Selected(recs, c)| ==> XValueIsInt(Selected(recs, c)[k])
  {
    if Select(recs, c).Ok? {
      SelectValues(recs, c);
    } else {
      SelectFailure(recs, c);
    }
  }

  lemma SelectFailure(recs: seq<Record>, c: Criteria)
    requires Select(recs, c).Err?
    ensures exists k :: 0 <= k < |Selected(recs, c)| && !XValueIsInt(Selected(recs, c)[k])
  {
    var sel := Selected(recs, c);
    if SelectFrom(recs, c).Err? {
      LoopFailure(recs, c);
      var k :| NoSeparatorFirstAt(sel, k, SelectFrom(recs, c).error);
      assert !XValueIsInt(sel[k]);
    } else {
      var cols := SelectFrom(recs, c).value;
      SelectColumns(recs, c);
      assert IntColumn(cols.0).Err?;
      ConversionFailure(sel, cols.0, cols.1);
    }
  }

  /** A failed conversion of parallel columns fails at the first selected record whose x does not convert. */
  lemma ConversionFailure(sel: seq<Record>, xs: seq<string>, ys: seq<string>)
    requires Parallel(sel, xs, ys) && IntColumn(xs).Err?
    ensures exists k :: 0 <= k < |sel| && !XValueIsInt(sel[k])
    ensures exists k :: 0 <= k < |sel| && XValue(sel[k].meta.system).Some?
                        && Int64Of(XValue(sel[k].meta.system).value).Err?
                        && IntColumn(xs).error == Int64Of(XValue(sel[k].meta.system).value).error
                        && forall j :: 0 <= j < k ==> XValueIsInt(sel[j])
  {
    var k :| 0 <= k < |xs| && Int64Of(xs[k]).Err? && IntColumn(xs).error == Int64Of(xs[k]).error
             && forall j :: 0 <= j < k ==> Int64Of(xs[j]).Ok?;
    assert XValue(sel[k].meta.system) == Some(xs[k]);
    assert !XValueIsInt(sel[k]);
    assert forall j :: 0 <= j < k ==> XValue(sel[j].meta.system) == Some(xs[j]);
  }

  /**
   * Selected record `k` is the first one whose system has no underscore, and
   * `e` is the IndexError that the selection loop raises there.
   */
  predicate NoSeparatorFirstAt(sel: seq<Record>, k: int, e: ReadError) {
    0 <= k < |sel| && XValue(sel[k].meta.system).None? && e == NoIndexSeparator(sel[k].meta.system)
    && forall j :: 0 <= j < k ==> XValue(sel[j].meta.system).Some?
  }

  /** A failed selection loop fails at the first selected system without underscore. */
  lemma {:induction false} LoopFailure(recs: seq<Record>, c: Criteria)
    requires SelectFrom(recs, c).Err?
    ensures exists k :: NoSeparatorFirstAt(Selected(recs, c), k, SelectFrom(recs, c).error)
    decreases |recs|
  {
    var r, rest := recs[0], recs[1..];
    assert recs == [r] + rest;
    SelectedCons(r, rest, c);
    var sel, tail := Selected(recs, c), Selected(rest, c);
    if !Wanted(r, c) {
      SelectSkips(r, rest, c);
      assert sel == tail && SelectFrom(recs, c) == SelectFrom(rest, c);
      LoopFailure(rest, c);
      var k :| NoSeparatorFirstAt(tail, k, SelectFrom(rest, c).error);
      assert NoSeparatorFirstAt(sel, k, SelectFrom(recs, c).error);
    } else if XValue(r.meta.system).None? {
      assert sel[0] == r;
      assert NoSeparatorFirstAt(sel, 0, SelectFrom(recs, c).error);
    } else {
      assert sel == [r] + tail;
      var e := SelectFrom(rest, c).error;
      assert SelectFrom(rest, c).Err? && SelectFrom(recs, c).error == e;
      LoopFailure(rest, c);
      var k :| NoSeparatorFirstAt(tail, k, e);
      NoSeparatorFirstCons(r, tail, k, e);
    }
  }

  /** A record with an underscore in front moves the first failure one place back. */
  lemma NoSeparatorFirstCons(r: Record, tail: seq<Record>, k: int, e: ReadError)
    requires XValue(r.meta.system).Some? && NoSeparatorFirstAt(tail, k, e)
    ensures NoSeparatorFirstAt([r] + tail, k + 1, e)
  {
    var sel := [r] + tail;
    assert sel[k + 1] == tail[k];
    assert forall j :: 1 <= j < k + 1 ==> sel[j] == tail[j - 1];
  }

  lemma SelectValues(recs: seq<Record>, c: Criteria)
    requires Select(recs, c).Ok?
    ensures var sel := Selected(recs, c);
            |Select(recs, c).value.0| == |sel| && |Select(recs, c).value.1| == |sel|
            && forall k :: 0 <= k < |sel| ==>
                 XValue(sel[k].meta.system).Some?
                 && ParseInt(XValue(sel[k].meta.system).value) == Some(Select(recs, c).value.0[k])
                 && InInt64(Select(recs, c).value.0[k])
                 && Select(recs, c).value.1[k] == sel[k].energy
  {
    SelectColumns(recs, c);
  }

  /** An `h2_` point whose suffix is not an integer, such as `h2_eq`, makes `select_results` raise ValueError. */
  lemma NonIntegerXRaises(energy: string)
    ensures Select([H2Point("eq", energy)], H2_SERIES) == Err(NotAnInteger("eq"))
  {
    var h := H2Point("eq", energy);
    H2PointWanted("eq", energy);
    SelectTakes(h, [], H2_SERIES, "eq");
    assert [h] + [] == [h];
    assert SelectFrom([], H2_SERIES) == Ok(([], []));
    assert ["eq"] + [] == ["eq"] && [energy] + [] == [energy];
    assert SelectFrom([h], H2_SERIES) == Ok((["eq"], [energy]));
    assert ParseInt("eq") == None;
  }

  /** An `h2_` point whose index is 2^63 or more makes the int64 conversion raise OverflowError. */
  lemma HugeXRaises(n: nat, energy: string)
    requires !InInt64(n)
    ensures Select([H2Point(NatToString(n), energy)], H2_SERIES) == Err(OutOfRange(NatToString(n)))
  {
    var x := NatToString(n);
    var h := H2Point(x, energy);
    H2PointWanted(x, energy);
    SelectTakes(h, [], H2_SERIES, x);
    assert [h] + [] == [h];
    assert SelectFrom([], H2_SERIES) == Ok(([], []));
    assert [x] + [] == [x] && [energy] + [] == [energy];
    assert SelectFrom([h], H2_SERIES) == Ok(([x], [energy]));
    NatParsesAsInt(n);
    assert Int64Of(x) == Err(OutOfRange(x));
    assert [x][0] == x;
  }

  /** The series `h2_*` over points with numeric suffixes in int64 gives those numbers as integers, in order. */
  lemma H2SeriesValues(n0: nat, e0: string, n1: nat, e1: string, other: Record)
    requires InInt64(n0) && InInt64(n1)
    requires !("h2_" <= other.meta.system)
    ensures Select([H2Point(NatToString(n0), e0), other, H2Point(NatToString(n1), e1)], H2_SERIES)
            == Ok(([n0, n1], [e0, e1]))
  {
    var x0, x1 := NatToString(n0), NatToString(n1);
    H2SeriesScenario(x0, e0, x1, e1, other);
    NatParsesAsInt(n0);
    NatParsesAsInt(n1);
    assert Int64Of(x0) == Ok(n0) && Int64Of(x1) == Ok(n1);
    IntColumnPair(x0, n0, x1, n1);
    SelectConverts([H2Point(x0, e0), other, H2Point(x1, e1)], H2_SERIES, [x0, x1], [e0, e1], [n0, n1]);
  }

  lemma IntColumnPair(x0: string, n0: int, x1: string, n1: int)
    requires Int64Of(x0) == Ok(n0) && Int64Of(x1) == Ok(n1)
    ensures IntColumn([x0, x1]) == Ok([n0, n1])
  {
    assert [x0, x1][1..] == [x1] && [x1][1..] == [];
    assert IntColumn([x1]) == Ok([n1] + []);
    assert [n1] + [] == [n1] && [n0] + [n1] == [n0, n1];
  }

  lemma SelectConverts(recs: seq<Record>, c: Criteria, xs: seq<string>, ys: seq<string>, ns: seq<int>)
    requires SelectFrom(recs, c) == Ok((xs, ys)) && IntColumn(xs) == Ok(ns)
    ensures Select(recs, c) == Ok((ns, ys))
  {
  }
}
