/** `Exec` (extract/extract.go) from parsed documents to report: every file
    is scanned in turn, the first file error ends the run, and the
    signatures of all files are ranked.  Finding the files on disk and
    parsing them is not modelled: each file arrives as its parse tree or as
    the error opening or parsing it produced. */
module Extract {
  import opened Wrappers
  import opened Text
  import opened Normalize
  import opened Scan
  import opened Rank

  /** `classesInFile` applied to each file, in order. */
  function ScanAll(docs: seq<Result<Node, FileError>>): (r: seq<Result<seq<string>, FileError>>)
    ensures |r| == |docs|
    ensures forall i :: 0 <= i < |docs| ==> (r[i].Failure? <==> docs[i].Failure?)
    ensures forall i :: 0 <= i < |docs| && docs[i].Failure? ==> r[i].error == docs[i].error
  {
    if docs == [] then [] else [ScanFile(docs[0])] + ScanAll(docs[1..])
  }

  /** The signatures of a list of emitting nodes, one per node. */
  function SignatureList(q: seq<Node>): seq<string>
    requires forall k :: 0 <= k < |q| ==> Qualifies(q[k])
  {
    if q == [] then [] else [Signature(q[0])] + SignatureList(q[1..])
  }

  /** Independently of the walk: the signatures of every element with a
      class attribute, document after document, each document in pre-order. */
  function Emitted(docs: seq<Result<Node, FileError>>): seq<string> {
    if docs == [] then []
    else
      (if docs[0].Success? then SignatureList(Qualifying(PreOrder(docs[0].value))) else [])
      + Emitted(docs[1..])
  }

  /** The signature list of `q` is, position by position, the signature of
      each node of `q`. */
  lemma {:induction false} SignatureListAt(q: seq<Node>)
    requires forall k :: 0 <= k < |q| ==> Qualifies(q[k])
    ensures SignaturesOf(SignatureList(q), q)
  {
    if q != [] {
      SignatureListAt(q[1..]);
      SignaturesOfAppend([Signature(q[0])], [q[0]], SignatureList(q[1..]), q[1..]);
      assert q == [q[0]] + q[1..];
    }
  }

  /** A list of signatures of `q` is the signature list of `q`. */
  lemma SignaturesOfUnique(sigs: seq<string>, q: seq<Node>)
    requires forall k :: 0 <= k < |q| ==> Qualifies(q[k])
    requires SignaturesOf(sigs, q)
    ensures sigs == SignatureList(q)
  {
    SignatureListAt(q);
  }

  lemma {:induction false} GatheredIsEmitted(docs: seq<Result<Node, FileError>>)
    ensures Gathered(ScanAll(docs)) == Emitted(docs)
  {
    if docs != [] {
      var files := ScanAll(docs);
      assert files[1..] == ScanAll(docs[1..]);
      GatheredIsEmitted(docs[1..]);
      if docs[0].Success? {
        SignaturesOfUnique(files[0].value, Qualifying(PreOrder(docs[0].value)));
      }
    }
  }

  lemma {:induction false} ListedAreSignatures(q: seq<Node>)
    requires forall k :: 0 <= k < |q| ==> Qualifies(q[k])
    ensures forall s :: s in SignatureList(q) ==> IsSignature(s)
  {
    if q != [] {
      ListedAreSignatures(q[1..]);
    }
  }

  /** Every signature the walk emits is canonical. */
  lemma {:induction false} EmittedAreSignatures(docs: seq<Result<Node, FileError>>)
    ensures forall s :: s in Emitted(docs) ==> IsSignature(s)
  {
    if docs != [] {
      EmittedAreSignatures(docs[1..]);
      if docs[0].Success? {
        ListedAreSignatures(Qualifying(PreOrder(docs[0].value)));
      }
    }
  }

  /** The error of the first file that fails, every earlier file having
      been read and parsed. */
  ghost predicate IsFirstFileError(docs: seq<Result<Node, FileError>>, e: FileError) {
    exists i :: 0 <= i < |docs| && docs[i] == Failure(e) &&
      (forall j :: 0 <= j < i ==> docs[j].Success?)
  }

  lemma ScanAllFails(docs: seq<Result<Node, FileError>>)
    ensures (exists i :: 0 <= i < |ScanAll(docs)| && ScanAll(docs)[i].Failure?) <==>
      (exists i :: 0 <= i < |docs| && docs[i].Failure?)
  {
    var files := ScanAll(docs);
    if exists i :: 0 <= i < |docs| && docs[i].Failure? {
      var i :| 0 <= i < |docs| && docs[i].Failure?;
      assert 0 <= i < |ScanAll(docs)| && ScanAll(docs)[i].Failure?;
    } else {
      forall i | 0 <= i < |files|
        ensures files[i].Success?
      {
        assert docs[i].Success?;
      }
    }
  }

  lemma ScanAllFirstError(docs: seq<Result<Node, FileError>>, e: FileError)
    requires IsFirstFailure(ScanAll(docs), e)
    ensures IsFirstFileError(docs, e)
  {
  }

  /** Every reported signature is canonical, and when it has at least
      `names` >= 1 spaces it has more than `names` classes. */
  lemma ReportedAreSignatures(all: seq<string>, names: int, threshold: int)
    requires forall s :: s in all ==> IsSignature(s)
    ensures var r := Ranking(all, names, threshold);
      forall k :: 0 <= k < |r| ==>
        && IsSignature(r[k].0)
        && (names >= 1 ==> |Fields(r[k].0)| > names)
  {
    var r := Ranking(all, names, threshold);
    forall k | 0 <= k < |r|
      ensures IsSignature(r[k].0) && (names >= 1 ==> |Fields(r[k].0)| > names)
    {
      SignatureSpaces(r[k].0);
    }
  }

  /** `Exec` after the flags are parsed and the files are found.  The run
      fails, with the error of the first failing file and no report, exactly
      when some file fails.  Otherwise the report ranks the signatures of all
      elements with a class attribute in all files; every reported signature
      is canonical, and with `names` at least 1 it holds more than `names`
      classes. */
  function Exec(docs: seq<Result<Node, FileError>>, names: int, threshold: int)
    : (r: Result<seq<Entry>, FileError>)
    ensures r.Failure? <==> exists i :: 0 <= i < |docs| && docs[i].Failure?
    ensures r.Failure? ==> IsFirstFileError(docs, r.error)
    ensures r.Success? ==> r.value == Ranking(Emitted(docs), names, threshold)
    ensures r.Success? ==> forall k :: 0 <= k < |r.value| ==>
      && IsSignature(r.value[k].0)
      && (names >= 1 ==> |Fields(r.value[k].0)| > names)
  {
    var r := Report(ScanAll(docs), names, threshold);
    ScanAllFails(docs);
    if r.Failure? then
      ScanAllFirstError(docs, r.error);
      r
    else
      GatheredIsEmitted(docs);
      EmittedAreSignatures(docs);
      ReportedAreSignatures(Emitted(docs), names, threshold);
      r
  }
}
