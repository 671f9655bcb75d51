/** Every run of the volume's operations, on any number of files. */
module FatRuns {
  import opened Bytes
  import opened FatChains
  import opened FatContents
  import opened FatFiles

  /** The volume and the chain of each file on it; nil is a file without clusters. */
  datatype World = World(vol: Vol, files: seq<seq<nat>>)

  datatype Event =
    | Create                                              // a new file, still without clusters
    | Allocate(file: nat)                                 // its first cluster
    | Extend(file: nat)                                   // one more cluster
    | Lookup(file: nat)                                   // a lookup in allocating mode
    | Write(file: nat, offset: nat, bytes: seq<u8>)       // the bytes a write stored
    | Truncate(file: nat)
    | Free(file: nat)
    | Record(cluster: nat, offset: nat, slot: seq<u8>)    // a directory slot rewritten in place

  /** Event `e` is about file `i`'s chain. */
  predicate Concerns(e: Event, i: nat) {
    !e.Create? && !e.Record? && e.file == i
  }

  /** What the operation behind `e` does to the volume and the chain of its file. */
  ghost predicate Effect(e: Event, v: Vol, s: seq<nat>, v': Vol, s': seq<nat>)
    requires !e.Create? && !e.Record?
  {
    match e
    case Allocate(_) => s == [] && |s'| == 1 && s'[0] < |v.fat| == |v.data| && 2 < |v.fat|
        && AllocateStep(v, v', true, s'[0])
    case Extend(_) => IsChain(v.fat, s) && |s'| == |s| + 1 && s <= s' && 2 <= s'[|s|] < |v.fat| == |v.data|
                      && IsFirstFree(v, s'[|s|]) && s[|s| - 1] < |v.fat| && v' == Linked(v, s, s'[|s|])
    case Lookup(_) => Grown(v, s, v', s')
    case Write(_, offset, bytes) => WriteStep(v, s, v', s', offset, bytes)
    case Truncate(_) => FileStep(v, s, v', s') && InTable(v.data, s) && InTable(v'.data, s')
                        && Resized(ChainBytes(v.data, s), ChainBytes(v'.data, s'))
    case Free(_) => s' == [] && LinksStay(v.fat) && 2 < |v.fat| < BAD_CLUSTER
                    && if s == [] then v' == v else s[0] < |v.fat| && v' == FreeWalk(v, s[0])
  }

  ghost predicate Next(w: World, e: Event, w': World) {
    match e
    case Create => w' == World(w.vol, w.files + [[]])
    case Record(c, at, slot) =>
      && 2 <= c < |w.vol.data| && at + |slot| <= |w.vol.data[c]|
      && w' == World(w.vol.(data := w.vol.data[c := Overlay(w.vol.data[c], at, slot)]), w.files)
    case _ =>
      && e.file < |w.files| && |w'.files| == |w.files|
      && w'.files == w.files[e.file := w'.files[e.file]]
      && Effect(e, w.vol, w.files[e.file], w'.vol, w'.files[e.file])
  }

  ghost predicate NextAt(ws: seq<World>, es: seq<Event>, k: nat)
    requires k < |es| && k + 1 < |ws|
  {
    Next(ws[k], es[k], ws[k + 1])
  }

  /** `es` takes the first world of `ws` to the last one, world by world. */
  ghost predicate Run(ws: seq<World>, es: seq<Event>) {
    && |ws| == |es| + 1
    && forall k :: 0 <= k < |es| ==> NextAt(ws, es, k)
  }

  ghost predicate Sound(w: World) {
    && WellFormed(w.vol)
    && Separated(w.vol.fat, w.files)
  }

  ghost function Clusters(files: seq<seq<nat>>): nat {
    if files == [] then 0 else Clusters(files[..|files| - 1]) + |files[|files| - 1]|
  }

  /** Free clusters and clusters owned by files, together. */
  ghost function Accounted(w: World): nat
    requires 2 <= |w.vol.fat|
  {
    FreeEntries(w.vol.fat) + Clusters(w.files)
  }

  lemma {:induction false} ClustersUpdate(files: seq<seq<nat>>, i: nat, s: seq<nat>)
    requires i < |files|
    ensures Clusters(files[i := s]) == Clusters(files) - |files[i]| + |s|
    decreases |files|
  {
    var n := |files| - 1;
    if i < n {
      assert files[i := s][..n] == files[..n][i := s];
      ClustersUpdate(files[..n], i, s);
    } else {
      assert files[i := s][..n] == files[..n];
    }
  }

  lemma {:induction false} SeparatedLinksStay(fat: seq<nat>, files: seq<seq<nat>>)
    requires Separated(fat, files)
    ensures LinksStay(fat)
  {
    forall c | 2 <= c < |fat|
      ensures fat[c] < |fat| || BAD_CLUSTER <= fat[c]
    {
      if fat[c] != FREE_CLUSTER && fat[c] != BAD_CLUSTER {
        var i: nat :| Owns(files, i, c);
        ChainLinkStays(fat, files[i], c);
      }
    }
  }

  /** Every operation on a file keeps the bargain that keeps the others safe. */
  lemma {:induction false} EffectIsFileStep(w: World, e: Event, w': World)
    requires Sound(w) && Next(w, e, w') && !e.Create? && !e.Record?
    ensures FileStep(w.vol, w.files[e.file], w'.vol, w'.files[e.file])
  {
    var v, s, v', s' := w.vol, w.files[e.file], w'.vol, w'.files[e.file];
    match e {
      case Allocate(_) =>
        LinkedIsFileStep(v, s, s'[0]);
        assert s' == s + [s'[0]];
      case Extend(_) =>
        LinkedIsFileStep(v, s, s'[|s|]);
        assert s' == s + [s'[|s|]];
      case Free(_) =>
        SeparatedLinksStay(v.fat, w.files);
        if s == [] {
          FileStepRefl(v, s);
        } else {
          ReleaseIsFileStep(v, s);
        }
      case _ =>
    }
  }

  /** One step keeps files apart and acyclic, leaks nothing, conserves clusters and
      keeps an exact free count exact. */
  lemma {:induction false} StepKeepsSound(w: World, e: Event, w': World)
    requires Sound(w) && Next(w, e, w')
    ensures Sound(w')
    ensures Accounted(w') == Accounted(w)
    ensures CountExact(w.vol) ==> CountExact(w'.vol)
  {
    hide Effect;
    match e {
      case Create =>
        CreateKeepsSeparation(w.vol.fat, w.files);
        assert w'.files[..|w.files|] == w.files;
      case Record(_, _, _) =>
      case _ =>
        EffectIsFileStep(w, e, w');
        StepKeepsSeparation(w.vol, w.files, e.file, w'.vol, w'.files[e.file]);
        ClustersUpdate(w.files, e.file, w'.files[e.file]);
    }
  }

  lemma {:induction false} CreateKeepsSeparation(fat: seq<nat>, files: seq<seq<nat>>)
    requires Separated(fat, files)
    ensures Separated(fat, files + [[]])
  {
    var files' := files + [[]];
    forall i, j, c | Owns(files', i, c) && Owns(files', j, c)
      ensures i == j
    {
      assert Owns(files, i, c) && Owns(files, j, c);
    }
    forall c | 2 <= c < |fat| && fat[c] != FREE_CLUSTER && fat[c] != BAD_CLUSTER
      ensures exists i :: Owns(files', i, c)
    {
      var i :| Owns(files, i, c);
      assert Owns(files', i, c);
    }
  }

  /** Over every run: chains stay acyclic, in range, end-marked and pairwise disjoint,
      no cluster is leaked or invented, and a known free count stays the true one. */
  lemma {:induction false} RunKeepsSound(ws: seq<World>, es: seq<Event>, k: nat)
    requires Run(ws, es) && Sound(ws[0]) && k < |ws|
    ensures Sound(ws[k])
    ensures Accounted(ws[k]) == Accounted(ws[0])
    ensures CountExact(ws[0].vol) ==> CountExact(ws[k].vol)
  {
    hide Sound, Next, Accounted, CountExact;
    if k > 0 {
      RunKeepsSound(ws, es, k - 1);
      assert NextAt(ws, es, k - 1);
      StepKeepsSound(ws[k - 1], es[k - 1], ws[k]);
    }
  }

  /** The event does not touch file `i`: it is about another file, and rewrites no
      directory slot inside file `i`. */
  ghost predicate Spares(e: Event, w: World, i: nat) {
    && !Concerns(e, i)
    && (e.Record? && i < |w.files| ==> e.cluster !in w.files[i])
  }

  lemma {:induction false} StepSparesFile(w: World, e: Event, w': World, i: nat)
    requires Sound(w) && Next(w, e, w') && i < |w.files| && Spares(e, w, i)
    ensures i < |w'.files| && w'.files[i] == w.files[i]
    ensures InTable(w.vol.data, w.files[i]) && InTable(w'.vol.data, w.files[i])
    ensures ChainBytes(w'.vol.data, w.files[i]) == ChainBytes(w.vol.data, w.files[i])
  {
    hide Effect, ChainBytes;
    ChainIsSized(w.vol, w.files[i]);
    match e {
      case Create =>
      case Record(c, _, _) =>
        ChainBytesFrame(w.vol.data, w'.vol.data, w.files[i]);
      case _ =>
        EffectIsFileStep(w, e, w');
        OtherFileUntouched(w.vol, w.files, e.file, w'.vol, w'.files[e.file], i);
    }
  }

  /** Over every run, a file no event touches keeps its chain and every byte. */
  lemma {:induction false} RunSparesFile(ws: seq<World>, es: seq<Event>, i: nat, k: nat)
    requires Run(ws, es) && Sound(ws[0]) && k < |ws| && i < |ws[0].files|
    requires forall j :: 0 <= j < k ==> Spares(es[j], ws[j], i)
    ensures i < |ws[k].files| && ws[k].files[i] == ws[0].files[i]
    ensures InTable(ws[0].vol.data, ws[0].files[i]) && InTable(ws[k].vol.data, ws[0].files[i])
    ensures ChainBytes(ws[k].vol.data, ws[0].files[i]) == ChainBytes(ws[0].vol.data, ws[0].files[i])
  {
    if k == 0 {
      ChainIsSized(ws[0].vol, ws[0].files[i]);
    } else {
      RunSparesFile(ws, es, i, k - 1);
      RunKeepsSound(ws, es, k - 1);
      assert NextAt(ws, es, k - 1);
      StepSparesFile(ws[k - 1], es[k - 1], ws[k], i);
    }
  }
}
