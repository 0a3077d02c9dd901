/**
 * The set-up half of the scripts: `make_dirs` creates one calculation
 * directory per interpolated structure and decides, when a name is already
 * taken, whether to reuse an existing directory or move to a later index;
 * `write_coms` decodes each directory's name into its four fields and writes
 * a Gaussian input file into its `mo` subdirectory.
 *
 * The working directory is a map from entry names to entries. A directory
 * records the content of its `system.xyz2` file as written, if any, and the
 * state of its `mo` subdirectory. The scripts write and read that file in
 * text mode on a POSIX system: writing stores the text as it is, reading it
 * back translates its line endings (`Text.ReadText`).
 */
module RunCalc {
  import opened Wrappers
  import opened Text
  import opened Decimal
  import Wildcard

  /** The `mo` entry of a calculation directory. */
  datatype Mo = NoMo | MoFile | MoDir(com: Option<string>)

  /** An entry of the working directory. */
  datatype Entry = File | Dir(xyz: Option<string>, mo: Mo)

  type Listing = map<string, Entry>

  // ---------------------------------------------------------------------------
  // make_dirs: names
  // ---------------------------------------------------------------------------

  /** What a step of `make_dirs` can raise. */
  datatype ProvisionError =
    | BadTemplate(template: string)  // `int(template.split('_')[1])` raises
    | DirExists(dirname: string)      // `os.mkdir` on a name that is taken

  /** `int(template.split('_')[1])`: `None` where Python raises IndexError or ValueError. */
  function TemplateIndex(template: string): (r: Option<int>)
    ensures r.Some? ==> '_' in template
  {
    var fields := Split(template, '_');
    if |fields| < 2 then None else ParseInt(fields[1])
  }

  /** The fixed parts of the directory names of one run: `{name}_{s}{e}_{i}_{basis}`. */
  datatype Base = Base(name: string, s: int, e: int, basis: string)

  /** The templates field `{s}{e}`: the two template indices written one after the other. */
  function Templates(b: Base): string {
    IntToString(b.s) + IntToString(b.e)
  }

  /** The text before the step index. */
  function Head(b: Base): string {
    b.name + "_" + Templates(b) + "_"
  }

  /** The text after the step index. */
  function Tail(b: Base): string {
    "_" + b.basis
  }

  /** `dir_basename.format(i)`. */
  function DirName(b: Base, i: nat): string {
    Head(b) + NatToString(i) + Tail(b)
  }

  /** `dir_basename.format('*')`, the glob for all directories of the run. */
  function Pattern(b: Base): string {
    Head(b) + "*" + Tail(b)
  }

  /** The names `glob.glob(pattern)` lists. */
  function Others(fs: Listing, pat: string): set<string> {
    set n | n in fs && Wildcard.Matches(n, pat)
  }

  /** Entry `n` is a directory whose `system.xyz2` was written with the text `xyz`. */
  predicate HoldsXyz(fs: Listing, n: string, xyz: string) {
    n in fs && fs[n].Dir? && fs[n].xyz == Some(xyz)
  }

  /** Entry `n` is a directory whose `system.xyz2`, read back in text mode, compares equal to `xyz`. */
  predicate ReadsXyz(fs: Listing, n: string, xyz: string) {
    n in fs && fs[n].Dir? && fs[n].xyz.Some? && ReadText(fs[n].xyz.value) == xyz
  }

  /** Some directory of the run already holds the structure `xyz`, as `f.read() == xyz` decides it. */
  predicate Held(fs: Listing, b: Base, xyz: string) {
    exists n :: n in Others(fs, Pattern(b)) && ReadsXyz(fs, n, xyz)
  }

  predicate IsDir(fs: Listing, n: string) {
    n in fs && fs[n].Dir?
  }

  // ---------------------------------------------------------------------------
  // make_dirs: the step rule and the run, as functions of the listing
  // ---------------------------------------------------------------------------

  /** `os.mkdir(dirname)` followed by writing `system.xyz2`. */
  function Create(fs: Listing, dirname: string, xyz: string): Result<Listing, ProvisionError> {
    if dirname in fs then Err(DirExists(dirname)) else Ok(fs[dirname := Dir(Some(xyz), NoMo)])
  }

  /** One iteration of the loop of `make_dirs`, for step `i` with structure `xyz`. */
  function ProvisionStep(fs: Listing, b: Base, i: nat, xyz: string): Result<Listing, ProvisionError> {
    var dirname := DirName(b, i);
    if IsDir(fs, dirname) then
      var others := Others(fs, Pattern(b));
      if Held(fs, b, xyz) then Ok(fs)
      else Create(fs, DirName(b, i + |others|), xyz)
    else Create(fs, dirname, xyz)
  }

  /** Steps `i`, `i + 1`, … for the structures `xyzs`; the first error stops the run, earlier steps stay done. */
  function ProvisionFrom(fs: Listing, b: Base, xyzs: seq<string>, i: nat): (Listing, Option<ProvisionError>)
    decreases |xyzs|
  {
    if xyzs == [] then (fs, None)
    else match ProvisionStep(fs, b, i, xyzs[0])
      case Err(e) => (fs, Some(e))
      case Ok(fs') => ProvisionFrom(fs', b, xyzs[1..], i + 1)
  }

  /** The loop step: a run from `i` is step `i` followed by the run from `i + 1`. */
  lemma ProvisionFromStep(fs: Listing, b: Base, xyzs: seq<string>, i: nat)
    requires i < |xyzs|
    ensures ProvisionStep(fs, b, i, xyzs[i]).Err? ==>
              ProvisionFrom(fs, b, xyzs[i..], i) == (fs, Some(ProvisionStep(fs, b, i, xyzs[i]).error))
    ensures ProvisionStep(fs, b, i, xyzs[i]).Ok? ==>
              ProvisionFrom(fs, b, xyzs[i..], i) == ProvisionFrom(ProvisionStep(fs, b, i, xyzs[i]).value, b, xyzs[i + 1..], i + 1)
  {
    assert xyzs[i..][0] == xyzs[i] && xyzs[i..][1..] == xyzs[i + 1..];
  }

  /** The whole of `make_dirs`: parse the two template indices, then provision every step from 0. */
  function MakeDirsSpec(fs: Listing, name: string, startTemplate: string, endTemplate: string,
                        basis: string, xyzs: seq<string>): (Listing, Option<ProvisionError>)
  {
    match TemplateIndex(startTemplate)
    case None => (fs, Some(BadTemplate(startTemplate)))
    case Some(s) =>
      match TemplateIndex(endTemplate)
      case None => (fs, Some(BadTemplate(endTemplate)))
      case Some(e) => ProvisionFrom(fs, Base(name, s, e, basis), xyzs, 0)
  }

  // ---------------------------------------------------------------------------
  // write_coms: one directory, and the run over the glob's list
  // ---------------------------------------------------------------------------

  /** What a step of `write_coms` can raise. */
  datatype ComError =
    | BadDirName(parent: string)  // the basename does not unpack into four fields
    | MoNotDir(parent: string)    // `os.mkdir` of `mo` where a file of that name exists
    | NoXyz(parent: string)       // opening `system.xyz2` fails

  /** The arguments `write_coms` hands to `make_com`. */
  datatype ComRequest = ComRequest(xyz: string, basis: string, chkfile: string, memory: string,
                                   title: string, charge: int, multiplicity: int)

  /** The request for a directory named `{system}_{templates}_{index}_{basis}` whose structure is `xyz`. */
  function RequestFor(xyz: string, fields: seq<string>): ComRequest
    requires |fields| == 4
  {
    var basis := "basis/" + fields[3];
    ComRequest(xyz, basis, "hf_sp.chk", "2gb",
               "HF/" + basis + " calculation for " + fields[0] + "/" + fields[1] + "/" + fields[2], 0, 1)
  }

  /**
   * One iteration of the loop of `write_coms` for the globbed name `parent`.
   * `mo` is created before `system.xyz2` is read, so a missing structure
   * file leaves the new `mo` behind.
   */
  function ComStep(fs: Listing, parent: string, makeCom: ComRequest -> string): (Listing, Option<ComError>) {
    if !IsDir(fs, parent) then (fs, None)
    else
      var fields := Split(parent, '_');
      if |fields| != 4 then (fs, Some(BadDirName(parent)))
      else
        var dir := fs[parent];
        if dir.mo.MoFile? then (fs, Some(MoNotDir(parent)))
        else
          var mo := if dir.mo.MoDir? then dir.mo else MoDir(None);
          match dir.xyz
          case None => (fs[parent := Dir(None, mo)], Some(NoXyz(parent)))
          case Some(xyz) => (fs[parent := Dir(Some(xyz), MoDir(Some(makeCom(RequestFor(ReadText(xyz), fields)))))], None)
  }

  /** The loop of `write_coms` over the names the glob listed, in its order; the first error stops it. */
  function ComFrom(fs: Listing, parents: seq<string>, makeCom: ComRequest -> string): (Listing, Option<ComError>)
    decreases |parents|
  {
    if parents == [] then (fs, None)
    else
      var (fs', err) := ComStep(fs, parents[0], makeCom);
      if err.Some? then (fs', err) else ComFrom(fs', parents[1..], makeCom)
  }

  // ---------------------------------------------------------------------------
  // Names: the template index, the directory name and its glob
  // ---------------------------------------------------------------------------

  /** The index is read from the second field: `{p}_{k}` or `{p}_{k}_…` yields `k`. */
  lemma TemplateIndexOf(p: string, k: int, rest: string)
    requires '_' !in p && (rest == [] || rest[0] == '_')
    ensures TemplateIndex(p + "_" + IntToString(k) + rest) == Some(k)
  {
    var ks := IntToString(k);
    var after := ks + rest;
    var t := p + "_" + ks + rest;
    assert t == p + ("_" + after);
    SplitPrefix(p, "_" + after, '_');
    assert ("_" + after)[0] == '_' && ("_" + after)[1..] == after;
    SplitPrefix(ks, rest, '_');
    if rest != [] {
      assert rest[1..] == rest[1..];
    }
    assert Split(rest, '_')[0] == "";
    assert ks + "" == ks;
    assert Split(t, '_')[1] == ks;
    IntRoundTrip(k);
  }

  /** A template name without `_` has no second field: `make_dirs` raises IndexError. */
  lemma TemplateWithoutSeparator(t: string)
    requires '_' !in t
    ensures TemplateIndex(t) == None
  {
    SplitPrefix(t, "", '_');
    assert t + "" == t;
  }

  /** Every directory name of a run matches the run's glob. */
  lemma DirNameMatchesPattern(b: Base, i: nat)
    ensures Wildcard.Matches(DirName(b, i), Pattern(b))
  {
    Wildcard.MatchesSelf(Head(b));
    Wildcard.StarMatchesAll(NatToString(i));
    Wildcard.MatchesConcat(Head(b), Head(b), NatToString(i), "*");
    Wildcard.MatchesSelf(Tail(b));
    Wildcard.MatchesConcat(Head(b) + NatToString(i), Head(b) + "*", Tail(b), Tail(b));
  }

  /** Different steps get different names. */
  lemma DirNameInjective(b: Base, i: nat, j: nat)
    requires DirName(b, i) == DirName(b, j)
    ensures i == j
  {
    var n := DirName(b, i);
    var lo, hi := |Head(b)|, |n| - |Tail(b)|;
    assert n[lo..hi] == NatToString(i);
    assert n[lo..hi] == NatToString(j);
    NatRoundTrip(i);
    NatRoundTrip(j);
  }

  /**
   * `write_coms` reads back what `make_dirs` wrote: when neither the name nor
   * the basis contains `_`, a directory name splits into exactly the four
   * fields system, templates, index and basis.
   */
  lemma DirNameFields(b: Base, i: nat)
    requires '_' !in b.name && '_' !in b.basis
    ensures Split(DirName(b, i), '_') == [b.name, Templates(b), NatToString(i), b.basis]
  {
    var se, ix := Templates(b), NatToString(i);
    assert '_' !in ix;
    JoinFour(b.name, se, ix, b.basis);
    Reassociate(b.name, se, ix, b.basis);
    SplitJoin([b.name, se, ix, b.basis], '_');
  }

  /** Four fields joined by `_`. */
  lemma JoinFour(a: string, b: string, c: string, d: string)
    ensures Join([a, b, c, d], '_') == a + "_" + (b + "_" + (c + "_" + d))
  {
    var fields := [a, b, c, d];
    assert fields[1..] == [b, c, d] && fields[1..][1..] == [c, d] && fields[1..][1..][1..] == [d];
    assert Join([d], '_') == d;
    assert Join([c, d], '_') == c + "_" + d;
    assert Join([b, c, d], '_') == b + "_" + (c + "_" + d);
  }

  lemma Reassociate(a: string, b: string, c: string, d: string)
    ensures a + "_" + b + "_" + c + ("_" + d) == a + "_" + (b + "_" + (c + "_" + d))
  {
  }

  // ---------------------------------------------------------------------------
  // make_dirs: what one step does
  // ---------------------------------------------------------------------------

  /** `fs'` keeps every entry of `fs` as it was. */
  predicate Extends(fs: Listing, fs': Listing) {
    forall n :: n in fs ==> n in fs' && fs'[n] == fs[n]
  }

  /** A free name is taken by a new directory holding exactly the generated structure. */
  lemma FreeNameCreates(fs: Listing, b: Base, i: nat, xyz: string)
    requires DirName(b, i) !in fs
    ensures ProvisionStep(fs, b, i, xyz) == Ok(fs[DirName(b, i) := Dir(Some(xyz), NoMo)])
    ensures HoldsXyz(fs[DirName(b, i) := Dir(Some(xyz), NoMo)], DirName(b, i), xyz)
  {
  }

  /** A plain file under the name makes `os.mkdir` raise. */
  lemma FileAtNameFails(fs: Listing, b: Base, i: nat, xyz: string)
    requires DirName(b, i) in fs && fs[DirName(b, i)].File?
    ensures ProvisionStep(fs, b, i, xyz) == Err(DirExists(DirName(b, i)))
  {
  }

  /** When the name is taken and some directory of the run holds the structure, nothing changes. */
  lemma ReuseWhenHeld(fs: Listing, b: Base, i: nat, xyz: string)
    requires IsDir(fs, DirName(b, i)) && Held(fs, b, xyz)
    ensures ProvisionStep(fs, b, i, xyz) == Ok(fs)
  {
  }

  /**
   * When the name is taken and no directory of the run holds the structure,
   * the step moves to index `i` plus the number of names the glob lists,
   * which is past `i`, and keeps every existing entry.
   */
  lemma RelocateWhenNotHeld(fs: Listing, b: Base, i: nat, xyz: string)
    requires IsDir(fs, DirName(b, i)) && !Held(fs, b, xyz)
    ensures var j := i + |Others(fs, Pattern(b))|;
            j > i && ProvisionStep(fs, b, i, xyz) == Create(fs, DirName(b, j), xyz)
    ensures ProvisionStep(fs, b, i, xyz).Ok? ==> Extends(fs, ProvisionStep(fs, b, i, xyz).value)
  {
    DirNameMatchesPattern(b, i);
    assert DirName(b, i) in Others(fs, Pattern(b));
  }

  /** A step either changes nothing or adds one new directory of the run holding `xyz`; it never rewrites an entry. */
  lemma StepExtends(fs: Listing, b: Base, i: nat, xyz: string)
    requires ProvisionStep(fs, b, i, xyz).Ok?
    ensures var fs' := ProvisionStep(fs, b, i, xyz).value;
            Extends(fs, fs')
            && (fs' == fs || exists d :: d !in fs && Wildcard.Matches(d, Pattern(b)) && fs' == fs[d := Dir(Some(xyz), NoMo)])
  {
    if !(IsDir(fs, DirName(b, i)) && Held(fs, b, xyz)) {
      var j := if IsDir(fs, DirName(b, i)) then i + |Others(fs, Pattern(b))| else i;
      DirNameMatchesPattern(b, j);
      assert ProvisionStep(fs, b, i, xyz) == Create(fs, DirName(b, j), xyz);
    }
  }

  /**
   * After a successful step, the step's own name is a directory and the run
   * holds its structure, for a structure without carriage returns (see
   * `CarriageReturnDefeatsReuse` for one with them).
   */
  lemma StepEstablishes(fs: Listing, b: Base, i: nat, xyz: string)
    requires ProvisionStep(fs, b, i, xyz).Ok? && '\r' !in xyz
    ensures var fs' := ProvisionStep(fs, b, i, xyz).value;
            IsDir(fs', DirName(b, i)) && Held(fs', b, xyz)
  {
    var fs' := ProvisionStep(fs, b, i, xyz).value;
    if !(IsDir(fs, DirName(b, i)) && Held(fs, b, xyz)) {
      var j := if IsDir(fs, DirName(b, i)) then i + |Others(fs, Pattern(b))| else i;
      assert fs' == fs[DirName(b, j) := Dir(Some(xyz), NoMo)];
      DirNameMatchesPattern(b, j);
      ReadTextFixedIff(xyz);
      assert DirName(b, j) in Others(fs', Pattern(b)) && ReadsXyz(fs', DirName(b, j), xyz);
    }
  }

  /** What the run holds stays held as entries are added. */
  lemma HeldMonotone(fs: Listing, fs': Listing, b: Base, xyz: string)
    requires Extends(fs, fs') && Held(fs, b, xyz)
    ensures Held(fs', b, xyz)
  {
    var n :| n in Others(fs, Pattern(b)) && ReadsXyz(fs, n, xyz);
    assert n in Others(fs', Pattern(b)) && ReadsXyz(fs', n, xyz);
  }

  // ---------------------------------------------------------------------------
  // make_dirs: what a run does
  // ---------------------------------------------------------------------------

  /** A run, failed or not, keeps every entry that was there: nothing is removed, overwritten or rolled back. */
  lemma {:induction false} RunExtends(fs: Listing, b: Base, xyzs: seq<string>, i: nat)
    ensures Extends(fs, ProvisionFrom(fs, b, xyzs, i).0)
    decreases |xyzs|
  {
    if xyzs != [] && ProvisionStep(fs, b, i, xyzs[0]).Ok? {
      var fs1 := ProvisionStep(fs, b, i, xyzs[0]).value;
      StepExtends(fs, b, i, xyzs[0]);
      RunExtends(fs1, b, xyzs[1..], i + 1);
    }
  }

  /** Every step from `i` on has its directory, and every structure is held by some directory of the run. */
  predicate Provisioned(fs: Listing, b: Base, xyzs: seq<string>, i: nat) {
    forall k: nat :: i <= k < i + |xyzs| ==> IsDir(fs, DirName(b, k)) && Held(fs, b, xyzs[k - i])
  }

  /** A run that succeeds leaves every step provisioned, when no structure has a carriage return. */
  lemma {:induction false} RunEstablishes(fs: Listing, b: Base, xyzs: seq<string>, i: nat)
    requires ProvisionFrom(fs, b, xyzs, i).1 == None
    requires forall k :: 0 <= k < |xyzs| ==> '\r' !in xyzs[k]
    ensures Provisioned(ProvisionFrom(fs, b, xyzs, i).0, b, xyzs, i)
    decreases |xyzs|
  {
    if xyzs != [] {
      RunFirstStep(fs, b, xyzs, i);
      var fs1 := ProvisionStep(fs, b, i, xyzs[0]).value;
      var fs' := ProvisionFrom(fs1, b, xyzs[1..], i + 1).0;
      StepEstablishes(fs, b, i, xyzs[0]);
      assert forall k :: 0 <= k < |xyzs| - 1 ==> xyzs[1..][k] == xyzs[k + 1];
      RunEstablishes(fs1, b, xyzs[1..], i + 1);
      RunExtends(fs1, b, xyzs[1..], i + 1);
      HeldMonotone(fs1, fs', b, xyzs[0]);
      ProvisionedCons(fs', b, xyzs, i);
    }
  }

  /** A run that succeeds took its first step successfully; the rest is the run from the next index. */
  lemma RunFirstStep(fs: Listing, b: Base, xyzs: seq<string>, i: nat)
    requires xyzs != [] && ProvisionFrom(fs, b, xyzs, i).1 == None
    ensures ProvisionStep(fs, b, i, xyzs[0]).Ok?
    ensures ProvisionFrom(fs, b, xyzs, i) == ProvisionFrom(ProvisionStep(fs, b, i, xyzs[0]).value, b, xyzs[1..], i + 1)
  {
  }

  lemma ProvisionedCons(fs: Listing, b: Base, xyzs: seq<string>, i: nat)
    requires xyzs != [] && IsDir(fs, DirName(b, i)) && Held(fs, b, xyzs[0]) && Provisioned(fs, b, xyzs[1..], i + 1)
    ensures Provisioned(fs, b, xyzs, i)
  {
    forall k: nat | i <= k < i + |xyzs|
      ensures IsDir(fs, DirName(b, k)) && Held(fs, b, xyzs[k - i])
    {
      if k > i {
        assert xyzs[1..][k - (i + 1)] == xyzs[k - i];
      }
    }
  }

  /** On a listing where every step is provisioned, a run changes nothing and succeeds. */
  lemma {:induction false} RunNoop(fs: Listing, b: Base, xyzs: seq<string>, i: nat)
    requires Provisioned(fs, b, xyzs, i)
    ensures ProvisionFrom(fs, b, xyzs, i) == (fs, None)
    decreases |xyzs|
  {
    if xyzs != [] {
      ProvisionedTail(fs, b, xyzs, i);
      assert ProvisionStep(fs, b, i, xyzs[0]) == Ok(fs);
      RunNoop(fs, b, xyzs[1..], i + 1);
    }
  }

  lemma ProvisionedTail(fs: Listing, b: Base, xyzs: seq<string>, i: nat)
    requires xyzs != [] && Provisioned(fs, b, xyzs, i)
    ensures IsDir(fs, DirName(b, i)) && Held(fs, b, xyzs[0]) && Provisioned(fs, b, xyzs[1..], i + 1)
  {
    assert IsDir(fs, DirName(b, i)) && Held(fs, b, xyzs[i - i]);
    forall k: nat | i + 1 <= k < i + 1 + |xyzs[1..]|
      ensures IsDir(fs, DirName(b, k)) && Held(fs, b, xyzs[1..][k - (i + 1)])
    {
      assert xyzs[1..][k - (i + 1)] == xyzs[k - i];
    }
  }

  /**
   * Running `make_dirs` again with the same arguments after it succeeded
   * changes nothing, when no structure has a carriage return.
   */
  lemma MakeDirsIdempotent(fs: Listing, name: string, startTemplate: string, endTemplate: string,
                           basis: string, xyzs: seq<string>)
    requires MakeDirsSpec(fs, name, startTemplate, endTemplate, basis, xyzs).1 == None
    requires forall k :: 0 <= k < |xyzs| ==> '\r' !in xyzs[k]
    ensures var fs' := MakeDirsSpec(fs, name, startTemplate, endTemplate, basis, xyzs).0;
            MakeDirsSpec(fs', name, startTemplate, endTemplate, basis, xyzs) == (fs', None)
  {
    var b := Base(name, TemplateIndex(startTemplate).value, TemplateIndex(endTemplate).value, basis);
    RunEstablishes(fs, b, xyzs, 0);
    RunNoop(ProvisionFrom(fs, b, xyzs, 0).0, b, xyzs, 0);
  }

  /** Where no name from step `i` on is taken, step `i + k` gets directory `i + k` holding structure `k`. */
  lemma {:induction false} FreshRun(fs: Listing, b: Base, xyzs: seq<string>, i: nat)
    requires forall k: nat :: k >= i ==> DirName(b, k) !in fs
    ensures ProvisionFrom(fs, b, xyzs, i).1 == None
    ensures forall k :: 0 <= k < |xyzs| ==> HoldsXyz(ProvisionFrom(fs, b, xyzs, i).0, DirName(b, i + k), xyzs[k])
    decreases |xyzs|
  {
    if xyzs != [] {
      var d := DirName(b, i);
      var fs1 := fs[d := Dir(Some(xyzs[0]), NoMo)];
      FreeNameCreates(fs, b, i, xyzs[0]);
      forall k: nat | k >= i + 1
        ensures DirName(b, k) !in fs1
      {
        if DirName(b, k) == d {
          DirNameInjective(b, k, i);
        }
      }
      FreshRun(fs1, b, xyzs[1..], i + 1);
      RunExtends(fs1, b, xyzs[1..], i + 1);
      var fs' := ProvisionFrom(fs1, b, xyzs[1..], i + 1).0;
      forall k | 0 <= k < |xyzs|
        ensures HoldsXyz(fs', DirName(b, i + k), xyzs[k])
      {
        if k > 0 {
          assert xyzs[1..][k - 1] == xyzs[k] && i + 1 + (k - 1) == i + k;
        }
      }
    }
  }

  /**
   * Relocation does not look for a free index: with directories 0 and 2 of a
   * run holding other structures, a new structure at step 0 is moved to
   * index 0 + 2, which is taken, and `os.mkdir` raises.
   */
  lemma RelocationCollides(b: Base)
    ensures var fs := map[DirName(b, 0) := Dir(Some("A"), NoMo), DirName(b, 2) := Dir(Some("C"), NoMo)];
            ProvisionStep(fs, b, 0, "B") == Err(DirExists(DirName(b, 2)))
  {
    var d0, d2 := DirName(b, 0), DirName(b, 2);
    var fs := map[d0 := Dir(Some("A"), NoMo), d2 := Dir(Some("C"), NoMo)];
    if d0 == d2 {
      DirNameInjective(b, 0, 2);
    }
    DirNameMatchesPattern(b, 0);
    DirNameMatchesPattern(b, 2);
    assert Others(fs, Pattern(b)) == {d0, d2};
    assert |Others(fs, Pattern(b))| == 2;
    assert ReadText("A") == "A" && ReadText("C") == "C";
    assert !Held(fs, b, "B");
  }

  /**
   * A structure with Windows line endings is not recognised when it comes
   * again: the text-mode read turns `C\r\n` into `C\n`, which differs from
   * the new `C\r\n`. A second run of the same step, on the listing the first
   * run left, does not reuse directory 0 but creates directory 1.
   */
  lemma CarriageReturnDefeatsReuse(b: Base)
    ensures var d0, d1 := DirName(b, 0), DirName(b, 1);
            var first := ProvisionFrom(map[], b, ["C\r\n"], 0);
            first == (map[d0 := Dir(Some("C\r\n"), NoMo)], None)
            && ProvisionFrom(first.0, b, ["C\r\n"], 0) == (first.0[d1 := Dir(Some("C\r\n"), NoMo)], None)
  {
    var d0, d1 := DirName(b, 0), DirName(b, 1);
    var xyz := "C\r\n";
    var fs: Listing := map[d0 := Dir(Some(xyz), NoMo)];
    assert ProvisionStep(map[], b, 0, xyz) == Ok(fs);
    assert ["C\r\n"][1..] == [];
    assert ProvisionFrom(map[], b, [xyz], 0) == (fs, None);
    DirNameMatchesPattern(b, 0);
    assert Others(fs, Pattern(b)) == {d0};
    assert ReadText(xyz) == "C\n";
    assert !Held(fs, b, xyz);
    if d0 == d1 {
      DirNameInjective(b, 0, 1);
    }
    assert ProvisionStep(fs, b, 0, xyz) == Ok(fs[d1 := Dir(Some(xyz), NoMo)]);
  }

  // ---------------------------------------------------------------------------
  // write_coms
  // ---------------------------------------------------------------------------

  /** Names the glob lists that are not directories are skipped. */
  lemma ComStepSkips(fs: Listing, parent: string, makeCom: ComRequest -> string)
    requires !IsDir(fs, parent)
    ensures ComStep(fs, parent, makeCom) == (fs, None)
  {
  }

  /**
   * A directory whose name does not split into four `_`-separated fields
   * makes the unpack raise ValueError; nothing has been changed yet.
   */
  lemma ComStepBadName(fs: Listing, parent: string, makeCom: ComRequest -> string)
    requires IsDir(fs, parent) && |Split(parent, '_')| != 4
    ensures ComStep(fs, parent, makeCom) == (fs, Some(BadDirName(parent)))
  {
  }

  /**
   * A step touches only its own directory: no entry is added or removed, a
   * directory stays a directory and its `system.xyz2` is never changed.
   */
  lemma ComStepFrame(fs: Listing, parent: string, makeCom: ComRequest -> string)
    ensures var fs' := ComStep(fs, parent, makeCom).0;
            fs'.Keys == fs.Keys && (forall n :: n in fs && n != parent ==> fs'[n] == fs[n])
            && (parent in fs ==> fs'[parent].Dir? == fs[parent].Dir?
                                 && (fs[parent].Dir? ==> fs'[parent].xyz == fs[parent].xyz))
  {
  }

  /**
   * `mo` is created only when absent: an existing `mo` directory is reused,
   * a missing one is made (even if the structure file then turns out to be
   * missing), and a file in its place is an error that changes nothing.
   */
  lemma ComStepMo(fs: Listing, parent: string, makeCom: ComRequest -> string)
    requires IsDir(fs, parent) && |Split(parent, '_')| == 4
    ensures var (fs', err) := ComStep(fs, parent, makeCom);
            (err == Some(MoNotDir(parent)) <==> fs[parent].mo.MoFile?)
            && (fs[parent].mo.MoFile? ==> fs' == fs)
            && (!fs[parent].mo.MoFile? ==> fs'[parent].mo.MoDir?)
            && (err == Some(NoXyz(parent)) <==> !fs[parent].mo.MoFile? && fs[parent].xyz.None?)
            && (fs[parent].mo.MoDir? && fs[parent].xyz.None? ==> fs' == fs)
  {
    var dir := fs[parent];
    if dir.mo.MoDir? && dir.xyz.None? {
      assert fs[parent := Dir(None, dir.mo)] == fs;
    }
  }

  /**
   * On a directory `make_dirs` named, `write_coms` writes the input for the
   * run's system, templates and step index, with the basis file under `basis/`,
   * from the structure as the text-mode read returns it.
   */
  lemma ComStepOnDirName(fs: Listing, b: Base, i: nat, xyz: string, makeCom: ComRequest -> string)
    requires '_' !in b.name && '_' !in b.basis
    requires IsDir(fs, DirName(b, i)) && fs[DirName(b, i)].xyz == Some(xyz) && !fs[DirName(b, i)].mo.MoFile?
    ensures var title := "HF/basis/" + b.basis + " calculation for " + b.name + "/"
                         + Templates(b) + "/" + NatToString(i);
            var com := makeCom(ComRequest(ReadText(xyz), "basis/" + b.basis, "hf_sp.chk", "2gb", title, 0, 1));
            ComStep(fs, DirName(b, i), makeCom) == (fs[DirName(b, i) := Dir(Some(xyz), MoDir(Some(com)))], None)
  {
    DirNameFields(b, i);
    var fields := Split(DirName(b, i), '_');
    var basis := "basis/" + b.basis;
    assert "HF/" + basis == "HF/basis/" + b.basis;
    assert RequestFor(ReadText(xyz), fields).title == "HF/basis/" + b.basis + " calculation for " + b.name + "/"
                         + Templates(b) + "/" + NatToString(i);
  }

  /** A step that succeeded has nothing left to do when repeated. */
  predicate ComDone(fs: Listing, parent: string, makeCom: ComRequest -> string) {
    ComStep(fs, parent, makeCom) == (fs, None)
  }

  lemma ComStepIdempotent(fs: Listing, parent: string, makeCom: ComRequest -> string)
    requires ComStep(fs, parent, makeCom).1 == None
    ensures ComDone(ComStep(fs, parent, makeCom).0, parent, makeCom)
  {
    var fs' := ComStep(fs, parent, makeCom).0;
    if IsDir(fs, parent) {
      var e := fs'[parent];
      assert fs'[parent := e] == fs';
    }
  }

  /** A step on another name leaves a finished directory finished. */
  lemma ComStepKeepsDone(fs: Listing, q: string, parent: string, makeCom: ComRequest -> string)
    requires ComDone(fs, parent, makeCom) && q != parent
    ensures ComDone(ComStep(fs, q, makeCom).0, parent, makeCom)
  {
    var fs' := ComStep(fs, q, makeCom).0;
    ComStepFrame(fs, q, makeCom);
    if IsDir(fs, parent) {
      var e := fs[parent];
      assert ComStep(fs, parent, makeCom).0 == fs[parent := e];
      assert fs'[parent] == e;
      assert fs'[parent := e] == fs';
    }
  }

  /** A successful run leaves every listed name finished. */
  lemma {:induction false} ComFromDone(fs: Listing, parents: seq<string>, makeCom: ComRequest -> string)
    requires ComFrom(fs, parents, makeCom).1 == None
    ensures forall k :: 0 <= k < |parents| ==> ComDone(ComFrom(fs, parents, makeCom).0, parents[k], makeCom)
    decreases |parents|
  {
    if parents != [] {
      var fs1 := ComStep(fs, parents[0], makeCom).0;
      ComStepIdempotent(fs, parents[0], makeCom);
      ComFromDone(fs1, parents[1..], makeCom);
      ComFromKeepsDone(fs1, parents[1..], parents[0], makeCom);
      forall k | 0 <= k < |parents|
        ensures ComDone(ComFrom(fs, parents, makeCom).0, parents[k], makeCom)
      {
        if k > 0 {
          assert parents[1..][k - 1] == parents[k];
        }
      }
    }
  }

  /** Later steps of a run leave a finished name finished. */
  lemma {:induction false} ComFromKeepsDone(fs: Listing, parents: seq<string>, parent: string,
                                            makeCom: ComRequest -> string)
    requires ComDone(fs, parent, makeCom)
    ensures ComDone(ComFrom(fs, parents, makeCom).0, parent, makeCom)
    decreases |parents|
  {
    if parents != [] {
      var fs1 := ComStep(fs, parents[0], makeCom).0;
      if parents[0] == parent {
        assert fs1 == fs;
      } else {
        ComStepKeepsDone(fs, parents[0], parent, makeCom);
      }
      ComFromKeepsDone(fs1, parents[1..], parent, makeCom);
    }
  }

  /** Where every listed name is finished, a run changes nothing. */
  lemma {:induction false} ComFromNoop(fs: Listing, parents: seq<string>, makeCom: ComRequest -> string)
    requires forall k :: 0 <= k < |parents| ==> ComDone(fs, parents[k], makeCom)
    ensures ComFrom(fs, parents, makeCom) == (fs, None)
    decreases |parents|
  {
    if parents != [] {
      assert ComDone(fs, parents[0], makeCom);
      forall k | 0 <= k < |parents[1..]|
        ensures ComDone(fs, parents[1..][k], makeCom)
      {
        assert parents[1..][k] == parents[k + 1];
      }
      ComFromNoop(fs, parents[1..], makeCom);
    }
  }

  /** Running `write_coms` again over the same list after it succeeded changes nothing. */
  lemma WriteComsIdempotent(fs: Listing, parents: seq<string>, makeCom: ComRequest -> string)
    requires ComFrom(fs, parents, makeCom).1 == None
    ensures var fs' := ComFrom(fs, parents, makeCom).0;
            ComFrom(fs', parents, makeCom) == (fs', None)
  {
    ComFromDone(fs, parents, makeCom);
    ComFromNoop(ComFrom(fs, parents, makeCom).0, parents, makeCom);
  }

  // ---------------------------------------------------------------------------
  // The working directory and the two procedures
  // ---------------------------------------------------------------------------

  class WorkDir {
    var entries: Listing

    constructor(initial: Listing)
      ensures entries == initial
    {
      entries := initial;
    }

    /** The inner loop of `make_dirs`: does any of the listed names hold `xyz`? */
    method HasHolder(others: set<string>, xyz: string) returns (matched: bool)
      ensures matched <==> exists n :: n in others && ReadsXyz(entries, n, xyz)
    {
      var rest := others;
      while rest != {}
        invariant rest <= others
        invariant forall n :: n in others && n !in rest ==> !ReadsXyz(entries, n, xyz)
        decreases |rest|
      {
        var n :| n in rest;
        if n in entries && entries[n].Dir? && entries[n].xyz.Some? && ReadText(entries[n].xyz.value) == xyz {
          return true;
        }
        rest := rest - {n};
      }
      return false;
    }

    /** `make_dirs(name, startTemplate, endTemplate, basis)` with the generated structures `xyzs`. */
    method MakeDirs(name: string, startTemplate: string, endTemplate: string, basis: string, xyzs: seq<string>)
      returns (err: Option<ProvisionError>)
      modifies this
      ensures (entries, err) == MakeDirsSpec(old(entries), name, startTemplate, endTemplate, basis, xyzs)
    {
      var s := TemplateIndex(startTemplate);
      if s.None? {
        return Some(BadTemplate(startTemplate));
      }
      var e := TemplateIndex(endTemplate);
      if e.None? {
        return Some(BadTemplate(endTemplate));
      }
      var b := Base(name, s.value, e.value, basis);
      assert xyzs[0..] == xyzs;
      for i := 0 to |xyzs|
        invariant ProvisionFrom(old(entries), b, xyzs, 0) == ProvisionFrom(entries, b, xyzs[i..], i)
      {
        var xyz := xyzs[i];
        ProvisionFromStep(entries, b, xyzs, i);
        ghost var step := ProvisionStep(entries, b, i, xyz);
        var index := i;
        var dirname := DirName(b, index);
        if dirname in entries && entries[dirname].Dir? {
          var others := set n | n in entries && Wildcard.Matches(n, Pattern(b));
          assert others == Others(entries, Pattern(b));
          var hasMatched := HasHolder(others, xyz);
          if !hasMatched {
            index := index + |others|;
            dirname := DirName(b, index);
          }
          if hasMatched {
            assert step == Ok(entries);
            continue;
          }
        }
        assert step == Create(entries, dirname, xyz);
        if dirname in entries {
          return Some(DirExists(dirname));
        }
        entries := entries[dirname := Dir(Some(xyz), NoMo)];
        assert step == Ok(entries);
      }
      assert xyzs[|xyzs|..] == [];
      return None;
    }

    /** `write_coms` over the names `parents` that the glob listed. */
    method WriteComs(parents: seq<string>, makeCom: ComRequest -> string) returns (err: Option<ComError>)
      modifies this
      ensures (entries, err) == ComFrom(old(entries), parents, makeCom)
    {
      assert parents[0..] == parents;
      for k := 0 to |parents|
        invariant ComFrom(old(entries), parents, makeCom) == ComFrom(entries, parents[k..], makeCom)
      {
        var parent := parents[k];
        assert parents[k..][0] == parent && parents[k..][1..] == parents[k + 1..];
        if !(parent in entries && entries[parent].Dir?) {
          continue;
        }
        var fields := Split(parent, '_');
        if |fields| != 4 {
          return Some(BadDirName(parent));
        }
        var dir := entries[parent];
        if dir.mo.MoFile? {
          return Some(MoNotDir(parent));
        }
        ghost var before := entries;
        if !dir.mo.MoDir? {
          entries := entries[parent := Dir(dir.xyz, MoDir(None))];
        } else {
          assert before[parent := Dir(dir.xyz, dir.mo)] == before;
        }
        if dir.xyz.None? {
          assert entries == before[parent := Dir(None, if dir.mo.MoDir? then dir.mo else MoDir(None))];
          return Some(NoXyz(parent));
        }
        var xyz := dir.xyz.value;
        entries := entries[parent := Dir(Some(xyz), MoDir(Some(makeCom(RequestFor(ReadText(xyz), fields)))))];
        assert entries == before[parent := Dir(Some(xyz), MoDir(Some(makeCom(RequestFor(ReadText(xyz), fields)))))];
        assert ComStep(before, parent, makeCom) == (entries, None);
      }
      assert parents[|parents|..] == [];
      return None;
    }
  }
}
