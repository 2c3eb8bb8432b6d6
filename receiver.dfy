/**
 * The message consumer of `rib-receiver.py`: each delivery is stored as
 * one file in the bucket of its arrival day, and only then acknowledged.
 */
module Receiver {
  import opened Wrappers
  import opened Decimal
  import opened FileSystem
  import Dates

  type DeliveryTag = nat

  /** A JSON value as `json.loads` returns it. */
  datatype Value =
    | Text(s: string)           // a `str`
    | Number(repr: string)      // an `int` or `float`, with the text `str()` gives it
    | Bool(b: bool)
    | Null
    | Container(repr: string)   // a `dict` or `list`, with the text `str()` gives it

  /** `"{}".format(v)`, the text the file name gets. */
  function Str(v: Value): string {
    match v
    case Text(t) => t
    case Number(t) => t
    case Bool(b) => if b then "True" else "False"
    case Null => "None"
    case Container(t) => t
  }

  /**
   * `"{:13}".format(v)` and the other width specs succeed: `str`, numbers
   * and `bool` accept a width, `None`, `dict` and `list` raise `TypeError`.
   */
  predicate Formattable(v: Value) {
    !v.Null? && !v.Container?
  }

  /**
   * What decoding the body and parsing it as JSON yields for its `meta`
   * object: each of the three keys the consumer reads may be absent.
   */
  datatype Meta = Meta(sequence: Option<Value>, id: Option<Value>, created: Option<Value>)

  /**
   * The `str` texts of the three values the line printed after the
   * acknowledgement shows; the printing itself, which writes a `bool` under
   * a width spec as an integer, is not modelled.
   */
  datatype LogLine = LogLine(sequence: string, id: string, created: string)

  /** The exceptions that leave the handler. */
  datatype HandlerError =
    | DecodeFailed          // bad encoding, invalid JSON, or no `meta` object
    | MissingKey(key: string)
    | EmbeddedNul           // the `ValueError` of `open` for a path holding NUL
    | Os(error: OsError)
    | FormatFailed          // the `TypeError` of a width spec on `None`, a `dict` or a `list`

  /** The filesystem, the channel's acknowledgements and the order of effects. */
  datatype State = State(files: Files, dirs: set<Path>, acks: seq<DeliveryTag>, effects: seq<Effect>)

  datatype Delivery = Delivery(state: State, result: Result<LogLine, HandlerError>)

  /** The day bucket: the data directory joined with the arrival day as `YYYYMMDD`. */
  function BucketPath(dataDir: Path, arrival: Dates.Date): (p: Path)
    requires Dates.Valid(arrival)
    ensures |p| == |dataDir| + 1 && p[..|dataDir|] == dataDir
    ensures |p[|dataDir|]| == 8 && AllDigits(p[|dataDir|])
    ensures Dates.Parse(p[|dataDir|]) == Some(arrival)
  {
    Dates.FormatRoundTrip(arrival);
    dataDir + [Dates.Format(arrival)]
  }

  /** `"{}_{}_{}.json".format(micros, sequence, id)`. */
  function FileName(micros: int, sequence: string, id: string): string {
    IntToString(micros) + "_" + sequence + "_" + id + ".json"
  }

  /** Every stored file is matched by the archiver's `*.json` glob. */
  lemma FileNameIsJson(micros: int, sequence: string, id: string)
    ensures IsJsonName(FileName(micros, sequence, id))
  {
    var n := FileName(micros, sequence, id);
    assert n[|n| - 5..] == ".json";
  }

  /** `n` holds `a`, an underscore, `sequence`, an underscore and `id`, in that order from its start. */
  predicate LaidOut(n: string, a: string, sequence: string, id: string) {
    && |n| == |a| + |sequence| + |id| + 7
    && (forall k :: 0 <= k < |a| ==> n[k] == a[k])
    && n[|a|] == '_'
    && (forall k :: 0 <= k < |sequence| ==> n[|a| + 1 + k] == sequence[k])
    && n[|a| + 1 + |sequence|] == '_'
    && (forall k :: 0 <= k < |id| ==> n[|a| + 2 + |sequence| + k] == id[k])
  }

  /** Where each part of a file name sits in it. */
  lemma FileNameLayout(micros: int, sequence: string, id: string)
    ensures LaidOut(FileName(micros, sequence, id), IntToString(micros), sequence, id)
  {
  }

  /** The text of `n` from `start` up to the next underscore or the end. */
  function UpToSeparator(n: string, start: nat): string
    decreases |n| - start
  {
    if start >= |n| || n[start] == '_' then [] else [n[start]] + UpToSeparator(n, start + 1)
  }

  /** A text without underscores that sits at `start`, followed by one, is what `UpToSeparator` reads there. */
  lemma {:induction false} UpToSeparatorOf(a: string, n: string, start: nat)
    requires '_' !in a && start + |a| < |n|
    requires forall k :: 0 <= k < |a| ==> n[start + k] == a[k]
    requires n[start + |a|] == '_'
    ensures UpToSeparator(n, start) == a
  {
    if |a| > 0 {
      assert n[start] == a[0];
      forall k | 0 <= k < |a| - 1 ensures n[start + 1 + k] == a[1..][k] {
        assert n[start + (k + 1)] == a[k + 1];
      }
      UpToSeparatorOf(a[1..], n, start + 1);
    }
  }

  /** Two texts whose characters agree up to the first underscore of each, which neither text holds. */
  lemma SameUpToSeparator(a: string, b: string, n: string, start: nat)
    requires '_' !in a && '_' !in b
    requires start + |a| < |n| && start + |b| < |n|
    requires forall k :: 0 <= k < |a| ==> n[start + k] == a[k]
    requires forall k :: 0 <= k < |b| ==> n[start + k] == b[k]
    requires n[start + |a|] == '_' && n[start + |b|] == '_'
    ensures a == b
  {
    UpToSeparatorOf(a, n, start);
    UpToSeparatorOf(b, n, start);
  }

  /** Two texts of one length that both sit at `start` in `n` are equal. */
  lemma SameAt(a: string, b: string, n: string, start: nat)
    requires |a| == |b| && start + |a| <= |n|
    requires forall k :: 0 <= k < |a| ==> n[start + k] == a[k]
    requires forall k :: 0 <= k < |b| ==> n[start + k] == b[k]
    ensures a == b
  {
  }

  /** Two layouts of one text with underscore-free parts agree part by part. */
  lemma LaidOutInjective(n: string, a1: string, s1: string, i1: string, a2: string, s2: string, i2: string)
    requires LaidOut(n, a1, s1, i1) && LaidOut(n, a2, s2, i2)
    requires '_' !in a1 && '_' !in a2
    ensures a1 == a2
    ensures '_' !in s1 && '_' !in s2 ==> s1 == s2 && i1 == i2
  {
    SameUpToSeparator(a1, a2, n, 0);
    if '_' !in s1 && '_' !in s2 {
      SameUpToSeparator(s1, s2, n, |a1| + 1);
      SameAt(i1, i2, n, |a1| + 2 + |s1|);
    }
  }

  /**
   * The composite key (arrival microsecond, sequence, id) determines the
   * file name and is recovered from it, as long as the sequence text holds
   * no underscore; the microsecond part alone is always recovered.
   */
  lemma FileNameInjective(m1: int, s1: string, i1: string, m2: int, s2: string, i2: string)
    requires FileName(m1, s1, i1) == FileName(m2, s2, i2)
    ensures m1 == m2
    ensures '_' !in s1 && '_' !in s2 ==> s1 == s2 && i1 == i2
  {
    IntToStringHasNoSeparator(m1);
    IntToStringHasNoSeparator(m2);
    FileNameLayout(m1, s1, i1);
    FileNameLayout(m2, s2, i2);
    LaidOutInjective(FileName(m1, s1, i1), IntToString(m1), s1, i1, IntToString(m2), s2, i2);
    IntToStringInjective(m1, m2);
  }

  /**
   * The path of the file stored for a decoded message: `data_path /
   * file_name` splits the name at its slashes.
   */
  function StoredPath(dataDir: Path, arrival: Dates.Date, micros: int, sequence: string, id: string): Path
    requires Dates.Valid(arrival)
  {
    BucketPath(dataDir, arrival) + Components(FileName(micros, sequence, id))
  }

  /**
   * A name made of texts without `/` is one component of the bucket;
   * a `/` in the sequence or the id puts the file at least one directory
   * further down.
   */
  lemma FileNameComponents(micros: int, sequence: string, id: string)
    ensures var n := FileName(micros, sequence, id);
            && ('/' !in sequence && '/' !in id ==> Components(n) == [n])
            && ('/' in sequence || '/' in id ==> |Components(n)| >= 2)
            && |Components(n)| >= 1
  {
    var m := IntToString(micros);
    var n := FileName(micros, sequence, id);
    IntToStringHasNoSeparator(micros);
    SignOfText(micros);
    assert n == m + "_" + sequence + "_" + id + ".json";
    if '/' !in sequence && '/' !in id {
      assert '/' !in n by {
        forall k | 0 <= k < |n| ensures n[k] != '/' {
          if k < |m| {
            assert n[k] == m[k];
          } else if k == |m| {
          } else if k < |m| + 1 + |sequence| {
            assert n[k] == sequence[k - |m| - 1];
          } else if k == |m| + 1 + |sequence| {
          } else if k < |m| + 2 + |sequence| + |id| {
            assert n[k] == id[k - |m| - 2 - |sequence|];
          } else {
            assert n[k] == ".json"[k - |m| - 2 - |sequence| - |id|];
          }
        }
      }
      assert n != "." by {
        assert |n| >= 6;
      }
      ComponentsOfName(n);
    } else {
      var k: int;
      if '/' in sequence {
        var j :| 0 <= j < |sequence| && sequence[j] == '/';
        k := |m| + 1 + j;
        assert n[k] == sequence[j];
      } else {
        var j :| 0 <= j < |id| && id[j] == '/';
        k := |m| + 2 + |sequence| + j;
        assert n[k] == id[j];
      }
      var x, y := n[..k], n[k + 1..];
      assert n == x + "/" + y;
      assert x[0] == m[0];
      assert y[|y| - 1] == n[|n| - 1] == 'n';
      ComponentsAcrossSlash(x, y);
    }
  }

  /** Step 1: create the bucket (and its parents) unless something exists at its path. */
  function EnsureBucket(s: State, bucket: Path): Result<State, OsError> {
    if Exists(s.files, s.dirs, bucket) then Success(s)
    else
      match MakeDirs(s.files, s.dirs, bucket, false)
      case Failure(e) => Failure(e)
      case Success(made) => Success(s.(dirs := made, effects := s.effects + [MadeDirs(bucket)]))
  }

  /** Step 2: write the raw body to `path`, then acknowledge the delivery. */
  function WriteThenAck(s: State, path: Path, body: seq<Byte>, tag: DeliveryTag): Result<State, OsError> {
    match OpenForWriting(s.files, s.dirs, path)
    case Some(e) => Failure(e)
    case None =>
      Success(s.(files := s.files[path := Raw(body)],
                 acks := s.acks + [tag],
                 effects := s.effects + [Wrote(path), Acked(tag)]))
  }

  /**
   * One call of `on_message`: create the bucket when it does not exist,
   * decode, build the name, write the raw body, acknowledge, then read
   * `meta.created` and format the log line. An exception stops the
   * sequence where it is raised; effects before it remain.
   */
  function Deliver(s: State, dataDir: Path, arrival: Dates.Date, micros: int, tag: DeliveryTag,
                   body: seq<Byte>, decoded: Option<Meta>): Delivery
    requires Dates.Valid(arrival)
  {
    var bucket := BucketPath(dataDir, arrival);
    match EnsureBucket(s, bucket)
    case Failure(e) => Delivery(s, Failure(Os(e)))
    case Success(s1) =>
      if decoded.None? then Delivery(s1, Failure(DecodeFailed))
      else if decoded.value.sequence.None? then Delivery(s1, Failure(MissingKey("sequence")))
      else if decoded.value.id.None? then Delivery(s1, Failure(MissingKey("id")))
      else
        var sequence, id := decoded.value.sequence.value, decoded.value.id.value;
        if '\0' in FileName(micros, Str(sequence), Str(id)) then Delivery(s1, Failure(EmbeddedNul))
        else
          match WriteThenAck(s1, StoredPath(dataDir, arrival, micros, Str(sequence), Str(id)), body, tag)
          case Failure(e) => Delivery(s1, Failure(Os(e)))
          case Success(s2) =>
            match decoded.value.created
            case None => Delivery(s2, Failure(MissingKey("created")))
            case Some(created) =>
              if Formattable(sequence) && Formattable(id) && Formattable(created)
              then Delivery(s2, Success(LogLine(Str(sequence), Str(id), Str(created))))
              else Delivery(s2, Failure(FormatFailed))
  }

  /** The effects the handler added, in order. */
  function Added(s: State, d: Delivery): seq<Effect>
    requires |s.effects| <= |d.state.effects|
  {
    d.state.effects[|s.effects|..]
  }

  /** The tags of the acknowledgements in an effect trace, in order. */
  function AckedTags(effects: seq<Effect>): seq<DeliveryTag> {
    if effects == [] then []
    else AckedTags(effects[..|effects| - 1])
         + (match effects[|effects| - 1] case Acked(t) => [t] case _ => [])
  }

  /** Every acknowledgement immediately follows the write of a file. */
  predicate AckFollowsWrite(effects: seq<Effect>) {
    forall i :: 0 <= i < |effects| && effects[i].Acked? ==> i > 0 && effects[i - 1].Wrote?
  }

  /** A consistent tree whose acknowledgements are those of the trace, each after a write. */
  ghost predicate Consistent(s: State) {
    WellFormed(s.files, s.dirs) && AckFollowsWrite(s.effects) && s.acks == AckedTags(s.effects)
  }

  lemma {:induction false} AckedTagsAppend(a: seq<Effect>, b: seq<Effect>)
    ensures AckedTags(a + b) == AckedTags(a) + AckedTags(b)
    decreases |b|
  {
    if b == [] {
      assert a + b == a;
    } else {
      assert (a + b)[..|a + b| - 1] == a + b[..|b| - 1];
      AckedTagsAppend(a, b[..|b| - 1]);
    }
  }

  /** The message has both keys the file name is built from. */
  predicate HasKeys(decoded: Option<Meta>) {
    decoded.Some? && decoded.value.sequence.Some? && decoded.value.id.Some?
  }

  /** The stored file name of a message with both keys. */
  function NameOf(micros: int, decoded: Option<Meta>): string
    requires HasKeys(decoded)
  {
    FileName(micros, Str(decoded.value.sequence.value), Str(decoded.value.id.value))
  }

  /** The stored path of a message with both keys. */
  function PathOf(dataDir: Path, arrival: Dates.Date, micros: int, decoded: Option<Meta>): Path
    requires Dates.Valid(arrival) && HasKeys(decoded)
  {
    StoredPath(dataDir, arrival, micros, Str(decoded.value.sequence.value), Str(decoded.value.id.value))
  }

  /**
   * The handler's order of effects: it may create the bucket, and after
   * that either stops, or writes this message's own file and acknowledges
   * the delivery right after it; nothing already in the state is removed.
   */
  lemma DeliverEffects(s: State, dataDir: Path, arrival: Dates.Date, micros: int, tag: DeliveryTag,
                       body: seq<Byte>, decoded: Option<Meta>)
    requires Dates.Valid(arrival)
    ensures var d := Deliver(s, dataDir, arrival, micros, tag, body, decoded);
            var bucket := BucketPath(dataDir, arrival);
            && |s.effects| <= |d.state.effects|
            && d.state.effects[..|s.effects|] == s.effects
            && (Added(s, d) == [] || Added(s, d) == [MadeDirs(bucket)]
                || (HasKeys(decoded) && Added(s, d) == [Wrote(PathOf(dataDir, arrival, micros, decoded)), Acked(tag)])
                || (HasKeys(decoded) && Added(s, d) == [MadeDirs(bucket), Wrote(PathOf(dataDir, arrival, micros, decoded)), Acked(tag)]))
            && (d.state.acks == s.acks || d.state.acks == s.acks + [tag])
  {
    var d := Deliver(s, dataDir, arrival, micros, tag, body, decoded);
    var bucket := BucketPath(dataDir, arrival);
    var n := |s.effects|;
    var e := EnsureBucket(s, bucket);
    if e.Failure? {
      assert d.state == s;
    } else {
      var s1 := e.value;
      var pre := if Exists(s.files, s.dirs, bucket) then [] else [MadeDirs(bucket)];
      assert s1.effects == s.effects + pre && s1.acks == s.acks;
      if HasKeys(decoded) && '\0' !in NameOf(micros, decoded)
         && WriteThenAck(s1, PathOf(dataDir, arrival, micros, decoded), body, tag).Success? {
        var tail := [Wrote(PathOf(dataDir, arrival, micros, decoded)), Acked(tag)];
        assert d.state == WriteThenAck(s1, PathOf(dataDir, arrival, micros, decoded), body, tag).value;
        assert d.state.effects == s.effects + (pre + tail);
        assert d.state.acks == s.acks + [tag];
      } else {
        assert d.state == s1;
      }
    }
  }

  lemma EnsureBucketKeepsConsistent(s: State, bucket: Path)
    requires Consistent(s) && EnsureBucket(s, bucket).Success?
    ensures Consistent(EnsureBucket(s, bucket).value)
  {
    if !Exists(s.files, s.dirs, bucket) {
      MakeDirsSpec(s.files, s.dirs, bucket, false);
      AckedTagsAppend(s.effects, [MadeDirs(bucket)]);
      assert AckedTags([MadeDirs(bucket)]) == [];
    }
  }

  lemma WriteThenAckKeepsConsistent(s: State, path: Path, body: seq<Byte>, tag: DeliveryTag)
    requires Consistent(s) && WriteThenAck(s, path, body, tag).Success?
    ensures Consistent(WriteThenAck(s, path, body, tag).value)
  {
    var tail := [Wrote(path), Acked(tag)];
    AckedTagsAppend(s.effects, tail);
    assert tail[..1] == [Wrote(path)];
    assert [Wrote(path)][..0] == [];
    assert AckedTags([Wrote(path)]) == [];
    assert AckedTags(tail) == [tag];
  }

  /** The handler keeps the tree consistent and every acknowledgement after its write. */
  lemma DeliverKeepsConsistent(s: State, dataDir: Path, arrival: Dates.Date, micros: int, tag: DeliveryTag,
                               body: seq<Byte>, decoded: Option<Meta>)
    requires Dates.Valid(arrival) && Consistent(s)
    ensures Consistent(Deliver(s, dataDir, arrival, micros, tag, body, decoded).state)
  {
    var bucket := BucketPath(dataDir, arrival);
    var e := EnsureBucket(s, bucket);
    if e.Success? {
      EnsureBucketKeepsConsistent(s, bucket);
      if HasKeys(decoded) {
        var path := PathOf(dataDir, arrival, micros, decoded);
        if WriteThenAck(e.value, path, body, tag).Success? {
          WriteThenAckKeepsConsistent(e.value, path, body, tag);
        }
      }
    }
  }

  /**
   * Creating the bucket fails only when a file lies along its path; it
   * changes no file and no acknowledgement, and when no file lies along
   * the path the bucket and its ancestors exist afterwards.
   */
  lemma EnsureBucketSpec(s: State, bucket: Path)
    requires WellFormed(s.files, s.dirs)
    ensures var e := EnsureBucket(s, bucket);
            && (e.Failure? ==> !NoFileOnPath(s.files, bucket))
            && (e.Success? ==> && e.value.files == s.files && e.value.acks == s.acks
                               && (e.value.dirs == s.dirs || e.value.dirs == s.dirs + Ancestors(bucket))
                               && WellFormed(e.value.files, e.value.dirs))
            && (NoFileOnPath(s.files, bucket) ==> e.Success? && e.value.dirs == s.dirs + Ancestors(bucket))
            && (e.Success? && !NoFileOnPath(s.files, bucket) ==> e.value == s && bucket in s.files)
  {
    if Exists(s.files, s.dirs, bucket) {
      if bucket in s.dirs {
        DirAncestorsAreDirs(s.files, s.dirs, bucket);
        MakeDirsSpec(s.files, s.dirs, bucket, true);
        assert s.dirs + Ancestors(bucket) == s.dirs;
      } else {
        assert bucket[..|bucket|] == bucket;
      }
    } else {
      MakeDirsSpec(s.files, s.dirs, bucket, false);
    }
  }

  /** A directory holding `q` holds the paths above `q` as directories too. */
  lemma DirBelow(files: Files, dirs: set<Path>, p: Path, q: Path)
    requires WellFormed(files, dirs) && q in dirs && |p| <= |q| && q[..|p|] == p
    ensures p in dirs
  {
    DirAncestorsAreDirs(files, dirs, q);
    assert p in Ancestors(q);
  }

  /** The stored path lies strictly below the bucket, and so does its directory's. */
  lemma StoredPathBelowBucket(dataDir: Path, arrival: Dates.Date, micros: int, decoded: Option<Meta>)
    requires Dates.Valid(arrival) && HasKeys(decoded)
    ensures var bucket := BucketPath(dataDir, arrival);
            var path := PathOf(dataDir, arrival, micros, decoded);
            && |path| > |bucket| && path[..|bucket|] == bucket && path !in Ancestors(bucket)
            && |Parent(path)| >= |bucket| && Parent(path)[..|bucket|] == bucket
  {
    FileNameComponents(micros, Str(decoded.value.sequence.value), Str(decoded.value.id.value));
  }

  /** Write-then-ack succeeds exactly when `open` does, and then stores the body and the ack. */
  lemma WriteThenAckSpec(s: State, path: Path, body: seq<Byte>, tag: DeliveryTag)
    requires path != []
    ensures var w := WriteThenAck(s, path, body, tag);
            && (w.Success? <==> path !in s.dirs && Parent(path) in s.dirs)
            && (w.Success? ==> w.value.files == s.files[path := Raw(body)] && w.value.dirs == s.dirs
                               && w.value.acks == s.acks + [tag])
  {
  }

  /**
   * The state after a delivery: that of the bucket step when it fails or
   * the message has no usable name, otherwise that of write-then-ack, or
   * of the bucket step when the write fails.
   */
  lemma DeliverSteps(s: State, dataDir: Path, arrival: Dates.Date, micros: int, tag: DeliveryTag,
                     body: seq<Byte>, decoded: Option<Meta>)
    requires Dates.Valid(arrival)
    ensures var d := Deliver(s, dataDir, arrival, micros, tag, body, decoded);
            var e := EnsureBucket(s, BucketPath(dataDir, arrival));
            && (e.Failure? ==> d == Delivery(s, Failure(Os(e.error))))
            && (e.Success? && !(HasKeys(decoded) && '\0' !in NameOf(micros, decoded)) ==> d.state == e.value && d.result.Failure?)
            && (e.Success? && HasKeys(decoded) && '\0' !in NameOf(micros, decoded) ==>
                  var w := WriteThenAck(e.value, PathOf(dataDir, arrival, micros, decoded), body, tag);
                  && (w.Failure? ==> d == Delivery(e.value, Failure(Os(w.error))))
                  && (w.Success? ==> d.state == w.value))
  {
  }

  /**
   * A delivery is acknowledged exactly when `meta.sequence` and `meta.id`
   * are present, the name holds no NUL, the bucket can be created or
   * exists, and the stored file's directory exists and the file is not a
   * directory; then the file holds the raw body (replacing a file of the
   * same name), the bucket and its ancestors exist, and nothing else
   * changed. Otherwise no file is written and no acknowledgement is sent,
   * and at most the bucket was created.
   */
  lemma DeliverAcksIffStored(s: State, dataDir: Path, arrival: Dates.Date, micros: int, tag: DeliveryTag,
                             body: seq<Byte>, decoded: Option<Meta>)
    requires Dates.Valid(arrival) && WellFormed(s.files, s.dirs)
    ensures var d := Deliver(s, dataDir, arrival, micros, tag, body, decoded);
            var bucket := BucketPath(dataDir, arrival);
            var path := if HasKeys(decoded) then PathOf(dataDir, arrival, micros, decoded) else bucket;
            var stored := && HasKeys(decoded) && '\0' !in NameOf(micros, decoded)
                          && NoFileOnPath(s.files, bucket)
                          && Parent(path) in s.dirs + Ancestors(bucket) && path !in s.dirs;
            && (stored ==> && d.state.files == s.files[path := Raw(body)]
                           && d.state.dirs == s.dirs + Ancestors(bucket)
                           && d.state.acks == s.acks + [tag])
            && (!stored ==> && d.state.files == s.files
                            && d.state.acks == s.acks
                            && (d.state.dirs == s.dirs || d.state.dirs == s.dirs + Ancestors(bucket)))
  {
    var bucket := BucketPath(dataDir, arrival);
    var d := Deliver(s, dataDir, arrival, micros, tag, body, decoded);
    EnsureBucketSpec(s, bucket);
    DeliverSteps(s, dataDir, arrival, micros, tag, body, decoded);
    var e := EnsureBucket(s, bucket);
    if e.Success? && HasKeys(decoded) && '\0' !in NameOf(micros, decoded) {
      var path := PathOf(dataDir, arrival, micros, decoded);
      StoredPathBelowBucket(dataDir, arrival, micros, decoded);
      WriteThenAckSpec(e.value, path, body, tag);
      if !NoFileOnPath(s.files, bucket) && Parent(path) in s.dirs {
        DirBelow(s.files, s.dirs, bucket, Parent(path));
      }
    }
  }

  /**
   * The receiver never creates a directory below a bucket, so when there
   * is none, a message whose sequence or id contains `/` is neither stored
   * nor acknowledged: `open` finds no directory for it.
   */
  lemma SlashInNameIsNotStored(s: State, dataDir: Path, arrival: Dates.Date, micros: int, tag: DeliveryTag,
                               body: seq<Byte>, decoded: Option<Meta>)
    requires Dates.Valid(arrival) && WellFormed(s.files, s.dirs)
    requires HasKeys(decoded) && ('/' in Str(decoded.value.sequence.value) || '/' in Str(decoded.value.id.value))
    requires var bucket := BucketPath(dataDir, arrival);
             forall p :: p in s.dirs ==> |p| <= |bucket| || p[..|bucket|] != bucket
    ensures var d := Deliver(s, dataDir, arrival, micros, tag, body, decoded);
            d.result.Failure? && d.state.files == s.files && d.state.acks == s.acks
  {
    var bucket := BucketPath(dataDir, arrival);
    FileNameComponents(micros, Str(decoded.value.sequence.value), Str(decoded.value.id.value));
    var path := PathOf(dataDir, arrival, micros, decoded);
    var q := Parent(path);
    assert |q| > |bucket| && q[..|bucket|] == bucket;
    assert q !in Ancestors(bucket);
    DeliverAcksIffStored(s, dataDir, arrival, micros, tag, body, decoded);
  }

  /**
   * An existing bucket is reused: no directory is created and every path
   * other than the stored file keeps its contents.
   */
  lemma DeliverReusesBucket(s: State, dataDir: Path, arrival: Dates.Date, micros: int, tag: DeliveryTag,
                            body: seq<Byte>, decoded: Option<Meta>, p: Path)
    requires Dates.Valid(arrival) && BucketPath(dataDir, arrival) in s.dirs
    requires p in s.files
    requires HasKeys(decoded) ==> p != PathOf(dataDir, arrival, micros, decoded)
    ensures var d := Deliver(s, dataDir, arrival, micros, tag, body, decoded);
            d.state.dirs == s.dirs && p in d.state.files && d.state.files[p] == s.files[p]
            && d.state.effects[..|s.effects|] == s.effects && MadeDirs(BucketPath(dataDir, arrival)) !in d.state.effects[|s.effects|..]
  {
    var d := Deliver(s, dataDir, arrival, micros, tag, body, decoded);
    assert d.state.effects[..|s.effects|] == s.effects;
  }

  /**
   * Failure points before the write: without a decodable body,
   * `meta.sequence` or `meta.id`, or with a NUL in the name, the handler
   * raises before writing and acknowledging.
   */
  lemma DeliverFailurePoints(s: State, dataDir: Path, arrival: Dates.Date, micros: int, tag: DeliveryTag,
                             body: seq<Byte>, decoded: Option<Meta>)
    requires Dates.Valid(arrival)
    ensures var d := Deliver(s, dataDir, arrival, micros, tag, body, decoded);
            && (decoded.None? ==> d.result.Failure? && (d.result.error == DecodeFailed || d.result.error.Os?)
                                  && d.state.files == s.files && d.state.acks == s.acks)
            && (decoded.Some? && decoded.value.sequence.None? ==>
                  d.result.Failure? && (d.result.error == MissingKey("sequence") || d.result.error.Os?)
                  && d.state.files == s.files && d.state.acks == s.acks)
            && (decoded.Some? && decoded.value.sequence.Some? && decoded.value.id.None? ==>
                  d.result.Failure? && (d.result.error == MissingKey("id") || d.result.error.Os?)
                  && d.state.files == s.files && d.state.acks == s.acks)
            && (HasKeys(decoded) && '\0' in NameOf(micros, decoded) ==>
                  d.result.Failure? && (d.result.error == EmbeddedNul || d.result.error.Os?)
                  && d.state.files == s.files && d.state.acks == s.acks)
  {
    var e := EnsureBucket(s, BucketPath(dataDir, arrival));
    if e.Success? {
      assert e.value.files == s.files && e.value.acks == s.acks;
    }
  }

  /**
   * Failure points after the acknowledgement: once the delivery is
   * acknowledged, the handler raises exactly when `meta.created` is
   * missing or one of the three values does not take a width spec, and
   * otherwise returns the log fields; neither result comes without the
   * acknowledgement.
   */
  lemma DeliverAfterAck(s: State, dataDir: Path, arrival: Dates.Date, micros: int, tag: DeliveryTag,
                        body: seq<Byte>, decoded: Option<Meta>)
    requires Dates.Valid(arrival)
    ensures var d := Deliver(s, dataDir, arrival, micros, tag, body, decoded);
            && (d.state.acks == s.acks + [tag] ==>
                  && HasKeys(decoded)
                  && (decoded.value.created.None? ==> d.result == Failure(MissingKey("created")))
                  && (decoded.value.created.Some? ==>
                        var m := decoded.value;
                        if Formattable(m.sequence.value) && Formattable(m.id.value) && Formattable(m.created.value)
                        then d.result == Success(LogLine(Str(m.sequence.value), Str(m.id.value), Str(m.created.value)))
                        else d.result == Failure(FormatFailed)))
            && (d.result.Success? || d.result == Failure(MissingKey("created")) || d.result == Failure(FormatFailed) ==>
                  d.state.acks == s.acks + [tag])
  {
    var e := EnsureBucket(s, BucketPath(dataDir, arrival));
    DeliverSteps(s, dataDir, arrival, micros, tag, body, decoded);
    if e.Success? {
      assert e.value.acks == s.acks;
      if HasKeys(decoded) && '\0' !in NameOf(micros, decoded) {
        var path := PathOf(dataDir, arrival, micros, decoded);
        StoredPathBelowBucket(dataDir, arrival, micros, decoded);
        WriteThenAckSpec(e.value, path, body, tag);
      }
    }
  }

  /**
   * A stored message whose sequence and id hold no `/` joins the day's
   * `*.json` listing, which the archiver packs; with a `/` it lands in a
   * directory below and the listing is unchanged.
   */
  lemma StoredMessageIsListed(s: State, dataDir: Path, arrival: Dates.Date, micros: int, tag: DeliveryTag,
                              body: seq<Byte>, sequence: Value, id: Value, created: Option<Value>)
    requires Dates.Valid(arrival)
    ensures var decoded := Some(Meta(Some(sequence), Some(id), created));
            var d := Deliver(s, dataDir, arrival, micros, tag, body, decoded);
            var bucket := BucketPath(dataDir, arrival);
            var name := FileName(micros, Str(sequence), Str(id));
            d.state.acks == s.acks + [tag] ==>
              && d.state.files[PathOf(dataDir, arrival, micros, decoded)] == Raw(body)
              && ('/' !in Str(sequence) && '/' !in Str(id) ==>
                    JsonNames(d.state.files, bucket) == JsonNames(s.files, bucket) + {name})
              && ('/' in Str(sequence) || '/' in Str(id) ==>
                    JsonNames(d.state.files, bucket) == JsonNames(s.files, bucket))
  {
    var decoded := Some(Meta(Some(sequence), Some(id), created));
    var d := Deliver(s, dataDir, arrival, micros, tag, body, decoded);
    var bucket := BucketPath(dataDir, arrival);
    var name := FileName(micros, Str(sequence), Str(id));
    var path := PathOf(dataDir, arrival, micros, decoded);
    var e := EnsureBucket(s, bucket);
    DeliverSteps(s, dataDir, arrival, micros, tag, body, decoded);
    StoredPathBelowBucket(dataDir, arrival, micros, decoded);
    if d.state.acks == s.acks + [tag] {
      assert e.Success? && e.value.files == s.files && e.value.acks == s.acks;
      assert '\0' !in name;
      WriteThenAckSpec(e.value, path, body, tag);
      assert d.state.files == s.files[path := Raw(body)];
      FileNameIsJson(micros, Str(sequence), Str(id));
      FileNameComponents(micros, Str(sequence), Str(id));
      if '/' !in Str(sequence) && '/' !in Str(id) {
        assert path == bucket + [name];
        JsonNamesAdd(s.files, bucket, name, Raw(body));
      } else {
        JsonNamesBelow(s.files, bucket, path, Raw(body));
      }
    }
  }

  /** The consumer's state as `on_message` sees it: configuration, disk and channel. */
  class MessageReceiver {
    const dataDir: Path
    var files: Files
    var dirs: set<Path>
    var acks: seq<DeliveryTag>
    ghost var effects: seq<Effect>

    ghost function Snapshot(): State
      reads this
    {
      State(files, dirs, acks, effects)
    }

    ghost predicate Valid()
      reads this
    {
      Consistent(Snapshot())
    }

    constructor (dataDir: Path, files: Files, dirs: set<Path>)
      requires WellFormed(files, dirs)
      ensures Valid()
      ensures this.dataDir == dataDir && this.files == files && this.dirs == dirs
      ensures acks == [] && effects == []
    {
      this.dataDir := dataDir;
      this.files := files;
      this.dirs := dirs;
      acks := [];
      effects := [];
    }

    /**
     * `on_message` for one delivery arriving on day `arrival` at `micros`
     * microseconds since the epoch; `decoded` is what decoding and parsing
     * `body` yields.
     */
    method OnMessage(arrival: Dates.Date, micros: int, tag: DeliveryTag, body: seq<Byte>, decoded: Option<Meta>)
      returns (r: Result<LogLine, HandlerError>)
      requires Valid() && Dates.Valid(arrival)
      modifies this
      ensures Valid()
      ensures Snapshot() == Deliver(old(Snapshot()), dataDir, arrival, micros, tag, body, decoded).state
      ensures r == Deliver(old(Snapshot()), dataDir, arrival, micros, tag, body, decoded).result
    {
      ghost var s0 := Snapshot();
      DeliverKeepsConsistent(s0, dataDir, arrival, micros, tag, body, decoded);
      var bucket := BucketPath(dataDir, arrival);
      if !Exists(files, dirs, bucket) {
        var made := MakeDirs(files, dirs, bucket, false);
        if made.Failure? {
          return Failure(Os(made.error));
        }
        dirs := made.value;
        effects := effects + [MadeDirs(bucket)];
      }
      assert EnsureBucket(s0, bucket) == Success(Snapshot());
      ghost var s1 := Snapshot();
      if decoded.None? {
        return Failure(DecodeFailed);
      }
      var meta := decoded.value;
      if meta.sequence.None? {
        return Failure(MissingKey("sequence"));
      }
      if meta.id.None? {
        return Failure(MissingKey("id"));
      }
      if '\0' in FileName(micros, Str(meta.sequence.value), Str(meta.id.value)) {
        return Failure(EmbeddedNul);
      }
      var path := StoredPath(dataDir, arrival, micros, Str(meta.sequence.value), Str(meta.id.value));
      var err := OpenForWriting(files, dirs, path);
      if err.Some? {
        assert WriteThenAck(s1, path, body, tag) == Failure(err.value);
        return Failure(Os(err.value));
      }
      files := files[path := Raw(body)];
      effects := effects + [Wrote(path)];
      acks := acks + [tag];
      effects := effects + [Acked(tag)];
      assert effects == s1.effects + [Wrote(path), Acked(tag)];
      assert WriteThenAck(s1, path, body, tag) == Success(Snapshot());
      if meta.created.None? {
        return Failure(MissingKey("created"));
      }
      if !Formattable(meta.sequence.value) || !Formattable(meta.id.value) || !Formattable(meta.created.value) {
        return Failure(FormatFailed);
      }
      return Success(LogLine(Str(meta.sequence.value), Str(meta.id.value), Str(meta.created.value)));
    }
  }
}
