/** From packed image to executed byte: an image is mounted, tasks call its modules, and its own bytes are what runs. */
module EndToEnd {
  import opened Bytes
  import opened Header
  import opened Storage
  import opened Overlay
  import opened Engine
  import opened Discovery
  import opened Packer
  import opened PackedImages
  import opened RegistryRuns
  import TaskHistory
  import Tasks

  // ---- Flash keeps the image ----

  /** Every write a task still has to make leaves the image where it is, whatever it does elsewhere. */
  ghost predicate WritesKeepImage(tasks: seq<Tasks.Task>, ms: seq<Module>) {
    forall t, n :: 0 <= t < |tasks| && 0 <= n < |tasks[t].jobs| && tasks[t].jobs[n].WriteJob? ==>
      ImageAt(tasks[t].jobs[n].after, 0, ms)
  }

  ghost predicate HoldsImage(s: Tasks.State, ms: seq<Module>) {
    ImageAt(s.flash, 0, ms) && WritesKeepImage(s.tasks, ms)
  }

  lemma FlashAfter(m: Manager, flash: seq<byte>, reg: Registry, job: Tasks.Job, pc: Tasks.Pc, c: Tasks.Choice)
    requires Tasks.LocalCan(m, flash, job, pc, c)
    ensures var f := Tasks.Local(m, flash, reg, job, pc, c).flash; f == flash || (job.WriteJob? && f == job.after)
  {
    hide Admit, FindFrom, FindOffsetIn, FlashRead, DecodeHeader;
  }

  lemma StepKeepsImage(s: Tasks.State, e: Tasks.Event, ms: seq<Module>)
    requires HoldsImage(s, ms) && Tasks.Can(s, e)
    ensures HoldsImage(Tasks.Do(s, e), ms)
  {
    hide Tasks.Local, Tasks.LocalCan, ImageAt;
    match e
    case Fill(_, _) =>
    case Turn(t, c) =>
      FlashAfter(s.m, s.flash, s.registry, s.tasks[t].jobs[0], s.tasks[t].pc, c);
  }

  lemma {:induction false} RunKeepsImage(s: Tasks.State, es: seq<Tasks.Event>, ms: seq<Module>)
    requires HoldsImage(s, ms) && Tasks.Play(s, es).Some?
    ensures HoldsImage(Tasks.Play(s, es).value, ms)
    decreases |es|
  {
    hide HoldsImage, Tasks.Can, Tasks.Do;
    if es != [] {
      var before := es[..|es| - 1];
      RunKeepsImage(s, before, ms);
      StepKeepsImage(Tasks.Play(s, before).value, es[|es| - 1], ms);
    }
  }

  // ---- What the registry and flash say of one module ----

  /** A mounted identifier is that of a packed module, at that module's place. */
  lemma RegisteredIsPacked(reg: Registry, ms: seq<Module>, id: u32, o: u32) returns (i: nat)
    requires Fits(ms) && HoldsExactly(reg, ImagePlaces(ms)) && FindOffsetIn(reg, id) == Some(o)
    ensures i < |ms| && ms[i].id == id && EntriesOf(ms)[i].flashOffset == o
  {
    hide FindOffsetIn, ImagePlaces, EntriesOf, Fits;
    i :| 0 <= i < |ImagePlaces(ms)| && ImagePlaces(ms)[i].0 == id;
    PlaceOfEntry(ms, i);
  }

  /** What a flash that holds the image has at a module's place. */
  lemma PackedBytes(flash: seq<byte>, ms: seq<Module>, i: nat)
    requires Fits(ms) && ImageAt(flash, 0, ms) && i < |ms|
    ensures var (o, x) := (EntriesOf(ms)[i].flashOffset, ms[i]);
            && o + HEADER_SIZE + |x.code| <= |flash| && WrapAdd(o, HEADER_SIZE) == o + HEADER_SIZE
            && DecodeHeader(flash[o..o + HEADER_SIZE]) == Ok(HeaderOf(x))
            && flash[o + HEADER_SIZE..o + HEADER_SIZE + |x.code|] == x.code
    ensures HeaderOf(ms[i]).codeSize == |ms[i].code| && HeaderOf(ms[i]).entryOffset == ms[i].entryOffset
  {
    hide DecodeHeader, EncodeHeader, HeaderOf, Container, Image, EntriesOf, WrapAdd;
    ImageContainer(flash, 0, ms, i);
    var o := EntriesOf(ms)[i].flashOffset;
    NoWrap(o, HEADER_SIZE);
    ContainerHeader(flash, o, ms[i]);
    HeaderOfFields(ms[i]);
    HeaderOfDecodes(ms[i]);
  }

  /** Bytes that were in flash at a moment of the run were in a flash that holds the image. */
  lemma HeldInImage(s: Tasks.State, es: seq<Tasks.Event>, j: nat, at: nat, bytes: seq<byte>, ms: seq<Module>)
    returns (flash: seq<byte>)
    requires HoldsImage(s, ms) && TaskHistory.HeldAt(s, es, j, at, bytes)
    ensures ImageAt(flash, 0, ms) && at + |bytes| <= |flash| && flash[at..at + |bytes|] == bytes
  {
    hide ImageAt, Tasks.Play;
    RunKeepsImage(s, es[..j], ms);
    flash := Tasks.Play(s, es[..j]).value.flash;
  }

  lemma ImageHeld(s: Tasks.State, ms: seq<Module>)
    requires HoldsImage(s, ms)
    ensures ImageAt(s.flash, 0, ms)
  {
  }

  lemma TurnHasJob(s: Tasks.State, t: nat, c: Tasks.Choice)
    requires Tasks.Can(s, Tasks.Turn(t, c))
    ensures t < |s.tasks| && s.tasks[t].jobs != []
  {
  }

  // ---- Main result ----

  /**
   * An image packed from any modules is in flash, was mounted, and no task's write touches it. Then
   * whatever the tasks do, however they interleave and whatever is fetched into the cache: a fetch by a
   * call of a module is of one of the packed modules, its slot starts with that module's own code, a
   * fetch below the code's length returns the code's byte there, and the first is at the module's entry.
   */
  lemma EveryFetchIsPacked(s: Tasks.State, es: seq<Tasks.Event>, ms: seq<Module>, max: nat, t: nat, at: nat)
    returns (i: nat)
    requires Fits(ms) && DistinctModules(ms) && |ms| <= max && HoldsImage(s, ms)
    requires s.registry == MountInto(EmptyRegistry(max), FlashReader(s.flash), 0).0
    requires Tasks.Initial(s) && |es| < U64 - 2 && Tasks.Play(s, es).Some?
    requires Tasks.Can(Tasks.Play(s, es).value, Tasks.Turn(t, Tasks.Fetch(at)))
    ensures Tasks.Play(s, es).value.tasks[t].pc.Running? && Tasks.Play(s, es).value.tasks[t].jobs[0].CallJob?
    ensures i < |ms| && ms[i].id == Tasks.Play(s, es).value.tasks[t].jobs[0].id
    ensures var d := Tasks.Play(s, es).value;
            var pc := d.tasks[t].pc;
            && pc.slot < |d.m.rams| && at < |d.m.rams[pc.slot]| && ms[i].code <= d.m.rams[pc.slot]
            && (at < |ms[i].code| ==> FetchByte(d.m, pc.slot, at) == ms[i].code[at])
            && (!pc.started ==> at == ms[i].entryOffset)
  {
    hide *;
    var j, k, o, header, code := TaskHistory.EveryFetchIsVerified(s, es, t, at);
    ImageHeld(s, ms);
    MountPacked(s.flash, 0, ms, max);
    TurnHasJob(Tasks.Play(s, es).value, t, Tasks.Fetch(at));
    i := RegisteredIsPacked(s.registry, ms, Tasks.Play(s, es).value.tasks[t].jobs[0].id, o);
    var first := HeldInImage(s, es, j, o, header, ms);
    PackedBytes(first, ms, i);
    var second := HeldInImage(s, es, k, WrapAdd(o, HEADER_SIZE), code, ms);
    PackedBytes(second, ms, i);
  }
}
