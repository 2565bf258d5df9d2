/** The paired-read registry `udpate_alnMap`: where each read name's
    mates map, kept in start order. */
module MateMap {
  import opened Results
  import opened Cigar

  datatype MapRecord = MapRecord(start: int, end: int, fileId: int, refId: int, isFirstMate: bool)

  /** The second record is absent until a mate has been seen. */
  datatype MapEntry = MapEntry(first: MapRecord, second: Option<MapRecord>)

  function RecordOf(fileId: int, al: Alignment): MapRecord {
    MapRecord(al.position, AlnEnd(al), fileId, al.refId, al.isFirstMate)
  }

  /** Both records of an entry lie on the same file and reference, the
      first starting no later than the second. */
  predicate EntryConsistent(e: MapEntry) {
    e.second.Some? ==>
      && e.second.value.fileId == e.first.fileId
      && e.second.value.refId == e.first.refId
      && e.first.start <= e.second.value.start
  }

  predicate Consistent(m: map<string, MapEntry>) {
    forall n :: n in m ==> EntryConsistent(m[n])
  }

  /** `udpate_alnMap`. A first sighting stores the record with no second.
      A later sighting fails exactly when it disagrees with the stored first
      record on file or reference; otherwise both records are present, in
      start order, the new one among them, and the one of the two that
      stays is the old first record. No other read name is touched. */
  function UpdateAlnMap(m: map<string, MapEntry>, fileId: int, al: Alignment): (r: Result<map<string, MapEntry>>)
    ensures r.Err? <==> al.name in m && (fileId != m[al.name].first.fileId || al.refId != m[al.name].first.refId)
    ensures r.Err? ==> r.fault == InconsistentMates
    ensures r.Ok? ==> r.value.Keys == m.Keys + {al.name}
    ensures r.Ok? && Consistent(m) ==> Consistent(r.value)
    ensures r.Ok? ==> forall n :: n in m && n != al.name ==> r.value[n] == m[n]
    ensures r.Ok? && al.name !in m ==> r.value[al.name] == MapEntry(RecordOf(fileId, al), None)
    ensures r.Ok? && al.name in m ==>
      var e := r.value[al.name];
      && e.second.Some?
      && e.first.start <= e.second.value.start
      && (e.first == RecordOf(fileId, al) || e.second.value == RecordOf(fileId, al))
      && (e.first == m[al.name].first || e.second.value == m[al.name].first)
    // a mate starting no earlier than the stored first record, ties
    // included, goes second; an earlier one takes the first place
    ensures r.Ok? && al.name in m ==>
      var e := r.value[al.name];
      var first := m[al.name].first;
      && (al.position >= first.start ==> e == MapEntry(first, Some(RecordOf(fileId, al))))
      && (al.position < first.start ==> e == MapEntry(RecordOf(fileId, al), Some(first)))
    // hence no first record ever starts later than before, or than the
    // alignment just seen
    ensures r.Ok? ==> r.value[al.name].first.start <= al.position
    ensures r.Ok? ==> forall n :: n in m ==> r.value[n].first.start <= m[n].first.start
  {
    var rec := MapRecord(al.position, AlnEnd(al), fileId, al.refId, al.isFirstMate);
    if al.name in m then
      var old1 := m[al.name].first;
      if fileId == old1.fileId && al.refId == old1.refId then
        if al.position >= old1.start then Ok(m[al.name := MapEntry(old1, Some(rec))])
        else Ok(m[al.name := MapEntry(rec, Some(old1))])
      else Err(InconsistentMates)
    else Ok(m[al.name := MapEntry(rec, None)])
  }

  /** Registering a file's alignments in order, stopping at the first
      inconsistent mate. It keeps consistency, adds exactly the names seen,
      and leaves every other stored name as it was. */
  function RegisterAll(m: map<string, MapEntry>, fileId: int, alns: seq<Alignment>): (r: Result<map<string, MapEntry>>)
    ensures r.Ok? && Consistent(m) ==> Consistent(r.value)
    ensures r.Ok? ==> r.value.Keys == m.Keys + Names(alns)
    ensures r.Ok? ==> forall n :: n in m && Unseen(alns, n) ==> r.value[n] == m[n]
    ensures r.Err? ==> r.fault == InconsistentMates
    decreases |alns|
  {
    if |alns| == 0 then Ok(m)
    else
      var m1 := UpdateAlnMap(m, fileId, alns[0]);
      if m1.Err? then Err(m1.fault)
      else
        var r := RegisterAll(m1.value, fileId, alns[1..]);
        assert forall n :: Unseen(alns, n) ==> n != alns[0].name && Unseen(alns[1..], n) by {
          forall n | Unseen(alns, n)
            ensures n != alns[0].name && Unseen(alns[1..], n)
          {
            assert alns[0].name != n;
            forall k | 0 <= k < |alns[1..]| ensures alns[1..][k].name != n {
              assert alns[1..][k] == alns[k + 1];
            }
          }
        }
        r
  }

  /** The read names carried by `alns`. */
  function Names(alns: seq<Alignment>): (s: set<string>)
    ensures forall k :: 0 <= k < |alns| ==> alns[k].name in s
    decreases |alns|
  {
    if |alns| == 0 then {}
    else
      var rest := Names(alns[1..]);
      assert forall k :: 1 <= k < |alns| ==> alns[k] == alns[1..][k - 1];
      {alns[0].name} + rest
  }

  /** No alignment of `alns` carries the name `n`. */
  predicate Unseen(alns: seq<Alignment>, n: string) {
    forall k :: 0 <= k < |alns| ==> alns[k].name != n
  }

  /** `alns[j]` is the first alignment of `alns` with its name. */
  predicate FirstSeenAt(alns: seq<Alignment>, j: nat)
    requires j < |alns|
  {
    forall i :: 0 <= i < j ==> alns[i].name != alns[j].name
  }

  /** The update of `alns[k]` aborts: its name is stored with another file
      or reference, or, new to the map, its first sighting in `alns` lies
      on another reference. */
  predicate Clash(m: map<string, MapEntry>, fileId: int, alns: seq<Alignment>, k: nat)
    requires k < |alns|
  {
    var n := alns[k].name;
    if n in m then fileId != m[n].first.fileId || alns[k].refId != m[n].first.refId
    else exists j :: 0 <= j < k && alns[j].name == n && FirstSeenAt(alns, j) && alns[j].refId != alns[k].refId
  }

  /** After a successful update with the head alignment, the remaining
      alignments clash against the new map exactly where they clashed
      against the old one. */
  lemma ClashShift(m: map<string, MapEntry>, fileId: int, alns: seq<Alignment>, k: nat)
    requires 1 <= k < |alns| && UpdateAlnMap(m, fileId, alns[0]).Ok?
    ensures Clash(UpdateAlnMap(m, fileId, alns[0]).value, fileId, alns[1..], k - 1) <==> Clash(m, fileId, alns, k)
  {
    var m1 := UpdateAlnMap(m, fileId, alns[0]).value;
    var rest := alns[1..];
    var n := alns[k].name;
    assert rest[k - 1] == alns[k];
    if n == alns[0].name {
      if n !in m {
        assert m1[n] == MapEntry(RecordOf(fileId, alns[0]), None);
        if Clash(m, fileId, alns, k) {
          var j :| 0 <= j < k && alns[j].name == n && FirstSeenAt(alns, j) && alns[j].refId != alns[k].refId;
          assert j == 0;
        }
        if alns[0].refId != alns[k].refId {
          assert FirstSeenAt(alns, 0);
        }
      }
    } else if n !in m {
      assert n !in m1;
      if Clash(m, fileId, alns, k) {
        var j :| 0 <= j < k && alns[j].name == n && FirstSeenAt(alns, j) && alns[j].refId != alns[k].refId;
        assert j > 0 && rest[j - 1] == alns[j];
        assert FirstSeenAt(rest, j - 1) by {
          forall i | 0 <= i < j - 1 ensures rest[i].name != rest[j - 1].name {
            assert rest[i] == alns[i + 1];
          }
        }
      }
      if Clash(m1, fileId, rest, k - 1) {
        var j :| 0 <= j < k - 1 && rest[j].name == n && FirstSeenAt(rest, j) && rest[j].refId != rest[k - 1].refId;
        assert rest[j] == alns[j + 1];
        assert FirstSeenAt(alns, j + 1) by {
          forall i | 0 <= i < j + 1 ensures alns[i].name != alns[j + 1].name {
            if i > 0 {
              assert alns[i] == rest[i - 1];
            }
          }
        }
      }
    }
  }

  /** Registration aborts exactly when some alignment clashes. */
  lemma {:induction false} RegisterFailsIff(m: map<string, MapEntry>, fileId: int, alns: seq<Alignment>)
    ensures RegisterAll(m, fileId, alns).Err? <==> exists k :: 0 <= k < |alns| && Clash(m, fileId, alns, k)
    decreases |alns|
  {
    if |alns| > 0 {
      var u := UpdateAlnMap(m, fileId, alns[0]);
      assert u.Err? <==> Clash(m, fileId, alns, 0);
      if u.Ok? {
        var rest := alns[1..];
        RegisterFailsIff(u.value, fileId, rest);
        if exists k :: 0 <= k < |rest| && Clash(u.value, fileId, rest, k) {
          var k :| 0 <= k < |rest| && Clash(u.value, fileId, rest, k);
          ClashShift(m, fileId, alns, k + 1);
        }
        if exists k :: 0 <= k < |alns| && Clash(m, fileId, alns, k) {
          var k :| 0 <= k < |alns| && Clash(m, fileId, alns, k);
          ClashShift(m, fileId, alns, k);
        }
      }
    }
  }

  /** Registration never moves a stored first record to a later start. */
  lemma {:induction false} RegisterFirstNoLater(m: map<string, MapEntry>, fileId: int, alns: seq<Alignment>)
    ensures var r := RegisterAll(m, fileId, alns);
      r.Ok? ==> forall n :: n in m ==> r.value[n].first.start <= m[n].first.start
    decreases |alns|
  {
    var r := RegisterAll(m, fileId, alns);
    if |alns| > 0 && r.Ok? {
      var m1 := UpdateAlnMap(m, fileId, alns[0]).value;
      var r1 := RegisterAll(m1, fileId, alns[1..]);
      assert r == r1;
      RegisterFirstNoLater(m1, fileId, alns[1..]);
      forall n | n in m
        ensures r1.value[n].first.start <= m[n].first.start
      {
        assert n in m1 && m1[n].first.start <= m[n].first.start;
      }
    }
  }

  /** After registration every stored first record starts no later than
      any sighting of its name. */
  lemma {:induction false} RegisterFirstEarliest(m: map<string, MapEntry>, fileId: int, alns: seq<Alignment>)
    ensures var r := RegisterAll(m, fileId, alns);
      r.Ok? ==> forall k :: 0 <= k < |alns| ==> r.value[alns[k].name].first.start <= alns[k].position
    decreases |alns|
  {
    var r := RegisterAll(m, fileId, alns);
    if |alns| > 0 && r.Ok? {
      var m1 := UpdateAlnMap(m, fileId, alns[0]).value;
      var rest := alns[1..];
      var r1 := RegisterAll(m1, fileId, rest);
      assert r == r1;
      forall k | 0 <= k < |alns|
        ensures r1.value[alns[k].name].first.start <= alns[k].position
      {
        if k > 0 {
          assert alns[k] == rest[k - 1];
          RegisterFirstEarliest(m1, fileId, rest);
        } else {
          assert alns[0].name in m1 && m1[alns[0].name].first.start <= alns[0].position;
          RegisterFirstNoLater(m1, fileId, rest);
        }
      }
    }
  }

  /** The last sighting of a name is one of the two records stored for it. */
  lemma {:induction false} RegisterKeepsLatest(m: map<string, MapEntry>, fileId: int, alns: seq<Alignment>, k: nat)
    requires k < |alns| && forall i :: k < i < |alns| ==> alns[i].name != alns[k].name
    ensures var r := RegisterAll(m, fileId, alns);
      r.Ok? ==>
        var e := r.value[alns[k].name];
        e.first == RecordOf(fileId, alns[k]) || e.second == Some(RecordOf(fileId, alns[k]))
    decreases |alns|
  {
    var r := RegisterAll(m, fileId, alns);
    if r.Ok? {
      var u := UpdateAlnMap(m, fileId, alns[0]);
      var rest := alns[1..];
      var r1 := RegisterAll(u.value, fileId, rest);
      assert r == r1;
      var rec := RecordOf(fileId, alns[k]);
      if k == 0 {
        var n := alns[0].name;
        assert Unseen(rest, n) by {
          forall i | 0 <= i < |rest| ensures rest[i].name != n {
            assert rest[i] == alns[i + 1];
          }
        }
        assert r1.value[n] == u.value[n];
        assert u.value[n].first == rec || u.value[n].second == Some(rec);
      } else {
        assert rest[k - 1] == alns[k];
        assert forall i :: k - 1 < i < |rest| ==> rest[i].name != rest[k - 1].name by {
          forall i | k - 1 < i < |rest| ensures rest[i].name != rest[k - 1].name {
            assert rest[i] == alns[i + 1];
          }
        }
        RegisterKeepsLatest(u.value, fileId, rest, k - 1);
      }
    }
  }
}
