/**
 A directory tree seen as a map from paths to file contents, and the effect
 of a sequence of file writes on it: each write creates the file or replaces
 what was there.
 */
module Files {

  datatype FilePath = FilePath(dir: string, name: string)

  /** One save: `content` written to `path`. */
  datatype Write<V> = Write(path: FilePath, content: V)

  /** The files after performing the writes of `log` in order, starting from `fs`. */
  function Apply<V>(fs: map<FilePath, V>, log: seq<Write<V>>): map<FilePath, V>
  {
    if log == [] then fs
    else Apply(fs, log[..|log| - 1])[log[|log| - 1].path := log[|log| - 1].content]
  }

  /** One more write updates the file it targets. */
  lemma ApplySnoc<V>(fs: map<FilePath, V>, log: seq<Write<V>>, w: Write<V>)
    ensures Apply(fs, log + [w]) == Apply(fs, log)[w.path := w.content]
  {
    assert (log + [w])[..|log|] == log;
  }

  /** The paths `log` writes to. */
  ghost function Targets<V>(log: seq<Write<V>>): set<FilePath> {
    set i | 0 <= i < |log| :: log[i].path
  }

  /** Writing creates every target and nothing else. */
  lemma {:induction false} ApplyKeys<V>(fs: map<FilePath, V>, log: seq<Write<V>>)
    ensures Apply(fs, log).Keys == fs.Keys + Targets(log)
  {
    if log != [] {
      var init := log[..|log| - 1];
      ApplyKeys(fs, init);
      assert Targets(log) == Targets(init) + {log[|log| - 1].path} by {
        forall p | p in Targets(log) ensures p in Targets(init) + {log[|log| - 1].path} {
          var i :| 0 <= i < |log| && log[i].path == p;
          if i < |log| - 1 {
            assert init[i].path == p;
          }
        }
        forall p | p in Targets(init) ensures p in Targets(log) {
          var i :| 0 <= i < |init| && init[i].path == p;
          assert log[i].path == p;
        }
      }
    }
  }

  /** A path that no write targets keeps its old state. */
  lemma {:induction false} ApplyUntouched<V>(fs: map<FilePath, V>, log: seq<Write<V>>, p: FilePath)
    requires forall i :: 0 <= i < |log| ==> log[i].path != p
    ensures p in Apply(fs, log) <==> p in fs
    ensures p in fs ==> Apply(fs, log)[p] == fs[p]
  {
    if log != [] {
      ApplyUntouched(fs, log[..|log| - 1], p);
    }
  }

  /** The file at a path holds what the last write to that path put there. */
  lemma {:induction false} ApplyLastWriteWins<V>(fs: map<FilePath, V>, log: seq<Write<V>>, i: nat)
    requires i < |log|
    requires forall j :: i < j < |log| ==> log[j].path != log[i].path
    ensures log[i].path in Apply(fs, log) && Apply(fs, log)[log[i].path] == log[i].content
  {
    if i < |log| - 1 {
      ApplyLastWriteWins(fs, log[..|log| - 1], i);
    }
  }

  /** When no two writes share a path, every written file holds its write. */
  lemma ApplyDistinctTargets<V>(fs: map<FilePath, V>, log: seq<Write<V>>)
    requires forall i, j :: 0 <= i < j < |log| ==> log[i].path != log[j].path
    ensures forall i :: 0 <= i < |log| ==> log[i].path in Apply(fs, log) && Apply(fs, log)[log[i].path] == log[i].content
  {
    forall i | 0 <= i < |log|
      ensures log[i].path in Apply(fs, log) && Apply(fs, log)[log[i].path] == log[i].content
    {
      ApplyLastWriteWins(fs, log, i);
    }
  }
}
