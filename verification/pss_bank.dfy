/**
 The bank of primary synchronization sequences (PSS), one per group
 identifier NID2 in {0, 1, 2}: the dictionary keys, the file paths, and the
 load that fills the dictionary. Reading and parsing one file is a parameter.
 */
module PssBank {
  import opened Wrappers
  import opened Iq
  import Decimal

  /** The group identifiers, in the order the source visits them. */
  const Nid2Values: seq<nat> := [0, 1, 2]

  /** The dictionary key `NID2_<k>`. */
  function PssKey(nid2: nat): string {
    "NID2_" + Decimal.NatToString(nid2)
  }

  /** A key is the prefix followed by digits that read back to its group. */
  lemma PssKeyReadsBack(nid2: nat)
    ensures |PssKey(nid2)| > 5 && PssKey(nid2)[..5] == "NID2_"
    ensures Decimal.ParseNat(PssKey(nid2)[5..]) == nid2
  {
    Decimal.ParseNatToString(nid2);
    assert PssKey(nid2)[5..] == Decimal.NatToString(nid2);
  }

  /** The file `<base>/NID2_<k>.csv` holding the sequence of group `k`. */
  function PssPath(base: string, nid2: nat): string {
    base + "/" + PssKey(nid2) + ".csv"
  }

  lemma PssKeyInjective(a: nat, b: nat)
    ensures PssKey(a) == PssKey(b) ==> a == b
  {
    if PssKey(a) == PssKey(b) {
      assert Decimal.NatToString(a) == PssKey(a)[5..];
      assert Decimal.NatToString(b) == PssKey(b)[5..];
      Decimal.NatToStringInjective(a, b);
    }
  }

  /** Distinct groups are read from distinct files under the same directory. */
  lemma PssPathInjective(base: string, a: nat, b: nat)
    ensures PssPath(base, a) == PssPath(base, b) ==> a == b
  {
    if PssPath(base, a) == PssPath(base, b) {
      var pa := PssPath(base, a);
      var pb := PssPath(base, b);
      assert PssKey(a) == pa[|base| + 1..|pa| - 4];
      assert PssKey(b) == pb[|base| + 1..|pb| - 4];
      PssKeyInjective(a, b);
    }
  }

  /** The three keys of the bank. */
  function BankKeys(): set<string> {
    {PssKey(0), PssKey(1), PssKey(2)}
  }

  /** Inserts `key -> path` for every group of `ns`, left to right. */
  function FilesFor(base: string, ns: seq<nat>): (files: map<string, string>)
    ensures files.Keys == set n | n in ns :: PssKey(n)
    ensures forall n :: n in ns ==> files[PssKey(n)] == PssPath(base, n)
  {
    if |ns| == 0 then map[]
    else
      var last := ns[|ns| - 1];
      var files := FilesFor(base, ns[..|ns| - 1]);
      assert forall n :: n in ns ==> n in ns[..|ns| - 1] || n == last;
      forall n | n in ns
        ensures PssKey(n) == PssKey(last) ==> n == last
      {
        PssKeyInjective(n, last);
      }
      files[PssKey(last) := PssPath(base, last)]
  }

  /** The `PSS_files` dictionary: exactly the three keys, each with its own path. */
  function PssFiles(base: string): (files: map<string, string>)
    ensures files.Keys == BankKeys()
    ensures forall n :: n in Nid2Values ==> files[PssKey(n)] == PssPath(base, n)
  {
    BankKeysOf();
    FilesFor(base, Nid2Values)
  }

  /** The keys of the groups 0, 1, 2 are the bank's three keys. */
  lemma BankKeysOf()
    ensures (set n | n in Nid2Values :: PssKey(n)) == BankKeys()
  {
    var ks := set n | n in Nid2Values :: PssKey(n);
    forall k | k in ks
      ensures k in BankKeys()
    {
      var n :| n in Nid2Values && PssKey(n) == k;
      assert n == 0 || n == 1 || n == 2;
    }
    assert Nid2Values[0] == 0 && Nid2Values[1] == 1 && Nid2Values[2] == 2;
    assert PssKey(0) in ks && PssKey(1) in ks && PssKey(2) in ks;
  }

  /** Reads one file; a failing read aborts the whole load. */
  function ReadRef(read: string -> Option<seq<Complex>>, path: string): (r: Result<seq<Complex>>)
    ensures r.Ok? <==> read(path).Some?
    ensures r.Ok? ==> r.value == read(path).value
    ensures r.Err? ==> r.error == IoError(path)
  {
    match read(path)
    case Some(w) => Ok(w)
    case None => Err(IoError(path))
  }

  /** `ns[i]` names the first group, in visiting order, whose file cannot be read. */
  predicate FirstUnreadable(files: map<string, string>, read: string -> Option<seq<Complex>>, ns: seq<nat>, i: nat)
    requires forall n :: n in ns ==> PssKey(n) in files
  {
    && i < |ns|
    && read(files[PssKey(ns[i])]).None?
    && forall j :: 0 <= j < i ==> read(files[PssKey(ns[j])]).Some?
  }

  /**
   The reading loop over the groups `ns`, left to right: each group's
   sequence is read from the path `files` records under its key, and the
   first unreadable file aborts the load.
   */
  function LoadFrom(files: map<string, string>, read: string -> Option<seq<Complex>>, ns: seq<nat>): (r: Result<map<string, seq<Complex>>>)
    requires forall n :: n in ns ==> PssKey(n) in files
    ensures r.Ok? <==> forall n :: n in ns ==> read(files[PssKey(n)]).Some?
    ensures r.Ok? ==> r.value.Keys == set n | n in ns :: PssKey(n)
    ensures r.Ok? ==> forall n :: n in ns ==> r.value[PssKey(n)] == read(files[PssKey(n)]).value
    ensures r.Err? ==> exists i :: 0 <= i < |ns| && FirstUnreadable(files, read, ns, i) && r.error == IoError(files[PssKey(ns[i])])
  {
    if |ns| == 0 then Ok(map[])
    else
      var last := ns[|ns| - 1];
      var init := ns[..|ns| - 1];
      assert forall n :: n in ns <==> n in init || n == last;
      assert forall j :: 0 <= j < |init| ==> init[j] == ns[j];
      var m :- LoadFrom(files, read, init);
      assert forall j :: 0 <= j < |init| ==> read(files[PssKey(ns[j])]).Some? by {
        forall j | 0 <= j < |init|
          ensures read(files[PssKey(ns[j])]).Some?
        {
          assert ns[j] == init[j] && init[j] in init;
        }
      }
      var w :- ReadRef(read, files[PssKey(last)]);
      assert forall n :: n in ns ==> (PssKey(n) == PssKey(last) ==> n == last) by {
        forall n | n in ns
          ensures PssKey(n) == PssKey(last) ==> n == last
        {
          PssKeyInjective(n, last);
        }
      }
      Ok(m[PssKey(last) := w])
  }

  /**
   The `refWaveforms` dictionary: each key holds what `read` returns for the
   path `PssFiles` records under that key, files visited in the order 0, 1, 2.
   */
  function LoadPssSeq(base: string, read: string -> Option<seq<Complex>>): (r: Result<map<string, seq<Complex>>>)
    ensures r.Ok? <==> forall n :: n in Nid2Values ==> read(PssPath(base, n)).Some?
    ensures r.Ok? ==> r.value.Keys == BankKeys()
    ensures r.Ok? ==> forall n :: n in Nid2Values ==> r.value[PssKey(n)] == read(PssPath(base, n)).value
    ensures r.Err? ==> exists i :: (0 <= i < 3 && read(PssPath(base, i)).None?
              && (forall j :: 0 <= j < i ==> read(PssPath(base, j)).Some?) && r.error == IoError(PssPath(base, i)))
  {
    BankKeysOf();
    var files := PssFiles(base);
    assert forall i :: 0 <= i < 3 ==> Nid2Values[i] == i && files[PssKey(i)] == PssPath(base, i);
    LoadFrom(files, read, Nid2Values)
  }
}
