/**
 What each mounted repository weighs (Get-XmipMapWeight, Xmip/Add-XmipMapMount.ps1): every file is
 charged to its deepest mount, once, so the weights add up to the lines of all files under any mount.
 */
module MapWeight {
  import opened Wrappers
  import opened Text
  import opened DeepestOwner

  datatype File = File(path: string, language: string, code: nat)

  type Spoken = map<string, nat>          // lines per language
  type Weights = map<string, Spoken>      // per mount

  // ---------------------------------------------------------------- sums over maps

  ghost function Sum<K(!new)>(m: map<K, nat>): nat
    decreases |m|
  {
    if m == map[] then 0
    else
      var k :| k in m;
      m[k] + Sum(m - {k})
  }

  lemma {:induction false} SumTakes<K(!new)>(m: map<K, nat>, k: K)
    requires k in m
    ensures Sum(m) == m[k] + Sum(m - {k})
    decreases |m|
  {
    var x :| x in m && Sum(m) == m[x] + Sum(m - {x});
    if x != k {
      SumTakes(m - {x}, k);
      SumTakes(m - {k}, x);
      assert m - {x} - {k} == m - {k} - {x};
    }
  }

  /** Setting one value changes the sum by the difference. */
  lemma SumPuts<K(!new)>(m: map<K, nat>, k: K, v: nat)
    ensures Sum(m[k := v]) == Sum(m) + v - (if k in m then m[k] else 0)
  {
    SumTakes(m[k := v], k);
    if k in m {
      SumTakes(m, k);
      assert m[k := v] - {k} == m - {k};
    } else {
      assert m[k := v] - {k} == m;
    }
  }

  /** The total of one mount's lines, language by language in whatever order. */
  method Total(spoken: Spoken) returns (sum: nat)
    ensures sum == Sum(spoken)
  {
    sum := 0;
    var rest := spoken;
    while rest.Keys != {}
      invariant sum + Sum(rest) == Sum(spoken)
      decreases |rest|
    {
      var language :| language in rest.Keys;
      SumTakes(rest, language);
      sum := sum + rest[language];
      rest := rest - {language};
    }
    assert rest == map[];
  }

  ghost function Totals(weight: Weights): map<string, nat> {
    map m | m in weight :: Sum(weight[m])
  }

  // ---------------------------------------------------------------- charging

  /** One file's lines added where it belongs. */
  function Charge(weight: Weights, m: string, language: string, code: nat): Weights {
    var spoken := if m in weight then weight[m] else map[];
    weight[m := spoken[language := (if language in spoken then spoken[language] else 0) + code]]
  }

  predicate ChargedTo(mounts: set<string>, f: File, m: string) {
    OwnerOfFile(mounts, f.path) == Some(m)
  }

  /** The lines of the files whose deepest mount this is, in one language; None where there is no such file. */
  function LinesAt(mounts: set<string>, files: seq<File>, m: string, language: string): Option<nat> {
    if files == [] then None
    else
      var f, before := files[|files| - 1], LinesAt(mounts, files[..|files| - 1], m, language);
      if ChargedTo(mounts, f, m) && f.language == language
      then Some((if before.Some? then before.value else 0) + f.code)
      else before
  }

  /** A count is stated exactly where some file is charged, a file of no lines included. */
  lemma {:induction false} StatedWhereCharged(mounts: set<string>, files: seq<File>, m: string, language: string)
    ensures LinesAt(mounts, files, m, language).Some? <==>
      exists f :: f in files && ChargedTo(mounts, f, m) && f.language == language
  {
    if files != [] {
      var front := files[..|files| - 1];
      StatedWhereCharged(mounts, front, m, language);
      assert files == front + [files[|files| - 1]];
      assert forall f :: f in files <==> f in front || f == files[|files| - 1];
    }
  }

  /** The lines of the files that are under any mount at all. */
  function LinesUnder(mounts: set<string>, files: seq<File>): nat {
    if files == [] then 0
    else
      var f := files[|files| - 1];
      LinesUnder(mounts, files[..|files| - 1]) + if OwnerOfFile(mounts, f.path).Some? then f.code else 0
  }

  function Look(weight: Weights, m: string, language: string): Option<nat> {
    if m in weight && language in weight[m] then Some(weight[m][language]) else None
  }

  /** Every count is the sum over exactly the files charged there, and no mount is there without one. */
  ghost predicate Weighs(mounts: set<string>, files: seq<File>, weight: Weights) {
    && (forall m, language :: Look(weight, m, language) == LinesAt(mounts, files, m, language))
    && (forall m :: m in weight ==> weight[m] != map[])
  }

  /** A mount is among the weights exactly where some file of the source is charged to it. */
  lemma WeighedWhereCharged(mounts: set<string>, files: seq<File>, weight: Weights, m: string)
    requires Weighs(mounts, files, weight)
    ensures m in weight <==> exists f :: f in files && ChargedTo(mounts, f, m)
  {
    hide ChargedTo, LinesAt;
    if m in weight {
      var language :| language in weight[m];
      assert Look(weight, m, language).Some?;
      StatedWhereCharged(mounts, files, m, language);
    }
    if f :| f in files && ChargedTo(mounts, f, m) {
      StatedWhereCharged(mounts, files, m, f.language);
      assert Look(weight, m, f.language).Some?;
    }
  }

  /** Get-XmipMapWeight's inner loop: up from the file, the first mount met. */
  method FindMount(mounts: set<string>, path: string) returns (owner: Option<string>)
    ensures owner == OwnerOfFile(mounts, path)
  {
    var part := Split(path, '/');
    var depth := |part| - 1;
    while depth > 0
      invariant 0 <= depth < |part|
      invariant Upward(mounts, part, depth) == OwnerOfFile(mounts, path)
    {
      var within := Join(part[..depth], '/');
      if within in mounts {
        return Some(within);
      }
      depth := depth - 1;
    }
    owner := None;
  }

  lemma ChargeLooks(weight: Weights, owner: string, spoke: string, code: nat, m: string, language: string)
    ensures Look(Charge(weight, owner, spoke, code), m, language) ==
      if m == owner && language == spoke
      then Some((match Look(weight, m, language) case None => 0 case Some(n) => n) + code)
      else Look(weight, m, language)
  {
  }

  lemma ChargeWeighs(mounts: set<string>, files: seq<File>, weight: Weights, f: File)
    requires Weighs(mounts, files, weight)
    ensures var owner := OwnerOfFile(mounts, f.path);
      Weighs(mounts, files + [f], if owner.None? then weight else Charge(weight, owner.value, f.language, f.code))
  {
    hide Look, OwnerOfFile;
    var owner, all := OwnerOfFile(mounts, f.path), files + [f];
    assert all[..|all| - 1] == files;
    if owner.Some? {
      forall m, language
        ensures Look(Charge(weight, owner.value, f.language, f.code), m, language) == LinesAt(mounts, all, m, language)
      {
        ChargeLooks(weight, owner.value, f.language, f.code, m, language);
      }
    }
  }

  lemma ChargeAdds(weight: Weights, m: string, language: string, code: nat)
    ensures Sum(Totals(Charge(weight, m, language, code))) == Sum(Totals(weight)) + code
  {
    var spoken: Spoken := if m in weight then weight[m] else map[];
    var more := (if language in spoken then spoken[language] else 0) + code;
    SumPuts(spoken, language, more);
    SumPuts(Totals(weight), m, Sum(spoken[language := more]));
    assert Totals(Charge(weight, m, language, code)) == Totals(weight)[m := Sum(spoken[language := more])];
    assert Sum<string>(map[]) == 0;
  }

  /** Get-XmipMapWeight: every file charged to its deepest mount, nothing lost and nothing counted twice. */
  method Weigh(mounts: set<string>, files: seq<File>) returns (weight: Weights)
    ensures Weighs(mounts, files, weight)
    ensures weight.Keys <= mounts
    ensures Sum(Totals(weight)) == LinesUnder(mounts, files)
  {
    weight := map[];
    assert Totals(weight) == map[];
    for i := 0 to |files|
      invariant Weighs(mounts, files[..i], weight)
      invariant Sum(Totals(weight)) == LinesUnder(mounts, files[..i])
    {
      assert files[..i + 1] == files[..i] + [files[i]];
      assert files[..i + 1][..i] == files[..i];
      ChargeWeighs(mounts, files[..i], weight, files[i]);
      var owner := FindMount(mounts, files[i].path);
      if owner.Some? {
        ChargeAdds(weight, owner.value, files[i].language, files[i].code);
        weight := Charge(weight, owner.value, files[i].language, files[i].code);
      }
    }
    assert files[..|files|] == files;
    forall m | m in weight
      ensures m in mounts
    {
      WeighedWhereCharged(mounts, files, weight, m);
      var f :| f in files && ChargedTo(mounts, f, m);
      FileHasDeepestOwner(mounts, f.path);
    }
  }
}
