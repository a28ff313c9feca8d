/** find_file: a first-match search over the listing os.walk produces for the extracted tree. */
module Locator {
  import opened Outcomes
  import opened PyText

  /** One step of os.walk: a directory and the names of the files directly in it (the
      subdirectory names it also yields are not used). */
  datatype WalkEntry = WalkEntry(dirpath: string, files: seq<string>)

  /** os.path.join(dir, name) for a relative name, with '/' as the separator. */
  function PathJoin(dir: string, name: string): string {
    if dir == [] || dir[|dir| - 1] == '/' then dir + name else dir + "/" + name
  }

  /** The earliest of the candidate names that is among the files. */
  function FirstCandidate(filenames: seq<string>, files: seq<string>): Option<string> {
    if filenames == [] then None
    else if filenames[0] in files then Some(filenames[0])
    else FirstCandidate(filenames[1..], files)
  }

  /** The path find_file returns: the first directory, in walk order, holding any candidate,
      joined with the earliest candidate it holds. */
  function FirstMatch(filenames: seq<string>, walk: seq<WalkEntry>): Option<string> {
    if walk == [] then None
    else match FirstCandidate(filenames, walk[0].files)
      case Some(name) => Some(PathJoin(walk[0].dirpath, name))
      case None => FirstMatch(filenames, walk[1..])
  }

  /** Candidate j in directory d is what find_file stops at: no earlier directory holds any
      candidate, and no earlier candidate is in directory d. */
  predicate IsFirstHit(filenames: seq<string>, walk: seq<WalkEntry>, d: int, j: int) {
    && 0 <= d < |walk|
    && 0 <= j < |filenames|
    && filenames[j] in walk[d].files
    && (forall e, k :: 0 <= e < d && 0 <= k < |filenames| ==> filenames[k] !in walk[e].files)
    && (forall k :: 0 <= k < j ==> filenames[k] !in walk[d].files)
  }

  /** find_file: the nested loops with an early return. */
  method FindFile(filenames: seq<string>, walk: seq<WalkEntry>) returns (path: Option<string>)
    ensures path == FirstMatch(filenames, walk)
  {
    var d := 0;
    while d < |walk|
      invariant 0 <= d <= |walk|
      invariant FirstMatch(filenames, walk) == FirstMatch(filenames, walk[d..])
    {
      var j := 0;
      while j < |filenames|
        invariant 0 <= j <= |filenames|
        invariant FirstCandidate(filenames, walk[d].files) == FirstCandidate(filenames[j..], walk[d].files)
      {
        if filenames[j] in walk[d].files {
          return Some(PathJoin(walk[d].dirpath, filenames[j]));
        }
        assert filenames[j..][1..] == filenames[j + 1..];
        j := j + 1;
      }
      assert walk[d..][1..] == walk[d + 1..];
      d := d + 1;
    }
    path := None;
  }

  lemma {:induction false} FirstCandidateSpec(filenames: seq<string>, files: seq<string>)
    ensures FirstCandidate(filenames, files).None? <==>
      forall k :: 0 <= k < |filenames| ==> filenames[k] !in files
    ensures FirstCandidate(filenames, files).Some? ==>
      exists j :: 0 <= j < |filenames| && filenames[j] in files
        && (forall k :: 0 <= k < j ==> filenames[k] !in files)
        && FirstCandidate(filenames, files).value == filenames[j]
  {
    if filenames != [] && filenames[0] !in files {
      var rest := filenames[1..];
      FirstCandidateSpec(rest, files);
      if FirstCandidate(rest, files).Some? {
        var j :| 0 <= j < |rest| && rest[j] in files
          && (forall k :: 0 <= k < j ==> rest[k] !in files)
          && FirstCandidate(rest, files).value == rest[j];
        assert forall k :: 0 <= k < j + 1 ==> filenames[k] !in files by {
          forall k | 0 <= k < j + 1 ensures filenames[k] !in files {
            if k > 0 {
              assert filenames[k] == rest[k - 1];
            }
          }
        }
      }
      assert forall k :: 1 <= k < |filenames| ==> filenames[k] == rest[k - 1];
    }
  }

  /** find_file returns nothing exactly when no directory holds any candidate; otherwise it
      returns the join of the first hit's directory and candidate, so the returned name is
      always one of the candidates. */
  lemma {:induction false} FirstMatchSpec(filenames: seq<string>, walk: seq<WalkEntry>)
    ensures FirstMatch(filenames, walk).None? <==>
      forall e, k :: 0 <= e < |walk| && 0 <= k < |filenames| ==> filenames[k] !in walk[e].files
    ensures FirstMatch(filenames, walk).Some? ==>
      exists d, j :: IsFirstHit(filenames, walk, d, j)
        && FirstMatch(filenames, walk).value == PathJoin(walk[d].dirpath, filenames[j])
  {
    if walk != [] {
      FirstCandidateSpec(filenames, walk[0].files);
      if FirstCandidate(filenames, walk[0].files).Some? {
        var j :| 0 <= j < |filenames| && filenames[j] in walk[0].files
          && (forall k :: 0 <= k < j ==> filenames[k] !in walk[0].files)
          && FirstCandidate(filenames, walk[0].files).value == filenames[j];
        assert IsFirstHit(filenames, walk, 0, j);
      } else {
        var rest := walk[1..];
        FirstMatchSpec(filenames, rest);
        if FirstMatch(filenames, rest).Some? {
          var d, j :| IsFirstHit(filenames, rest, d, j)
            && FirstMatch(filenames, rest).value == PathJoin(rest[d].dirpath, filenames[j]);
          assert IsFirstHit(filenames, walk, d + 1, j) by {
            forall e, k | 0 <= e < d + 1 && 0 <= k < |filenames|
              ensures filenames[k] !in walk[e].files
            {
              if e > 0 {
                assert walk[e] == rest[e - 1];
              }
            }
          }
        }
        assert forall e :: 1 <= e < |walk| ==> walk[e] == rest[e - 1];
      }
    }
  }

  /** The joined path ends with the candidate's name. */
  lemma PathJoinEndsWithName(dir: string, name: string)
    ensures EndsWith(PathJoin(dir, name), name)
  {
  }
}
