/** Files as a map from path to contents. Every rename is one step; the history records each state a
    crash could leave behind. */
module FileSystem {

  /** rename(2): it fails when the source is missing or the system refuses; otherwise it replaces the
      target in one step. */
  function Moved<T>(fs: map<string, T>, a: string, b: string, refused: bool): (r: (map<string, T>, bool))
    ensures r.1 <==> a in fs && !refused
    ensures !r.1 ==> r.0 == fs
    ensures r.1 && a != b ==> a !in r.0 && b in r.0 && r.0[b] == fs[a]
    ensures forall p :: p != a && p != b ==> (p in r.0 <==> p in fs) && (p in fs ==> r.0[p] == fs[p])
  {
    if a !in fs || refused then (fs, false) else ((fs - {a})[b := fs[a]], true)
  }

  /** How writing a file ends: done, not even started, or interrupted. */
  datatype WriteFault = Completed | Refused | Interrupted

  class Disk<T> {
    var files: map<string, T>
    ghost var history: seq<map<string, T>>

    constructor (files: map<string, T>)
      ensures this.files == files && history == []
    {
      this.files, history := files, [];
    }

    /** Writing a file anew: first it is incomplete, then it is not. */
    method Write(p: string, partial: T, whole: T, fault: WriteFault) returns (ok: bool)
      modifies this
      ensures ok == fault.Completed?
      ensures files == match fault
                       case Completed => old(files)[p := whole]
                       case Refused => old(files)
                       case Interrupted => old(files)[p := partial]
      ensures history == old(history) + match fault
                                        case Completed => [old(files)[p := partial], files]
                                        case Refused => []
                                        case Interrupted => [files]
    {
      if fault.Refused? {
        return false;
      }
      files := files[p := partial];
      history := history + [files];
      if fault.Interrupted? {
        return false;
      }
      files := files[p := whole];
      history := history + [files];
      return true;
    }

    method Rename(a: string, b: string, refused: bool) returns (ok: bool)
      modifies this
      ensures (files, ok) == Moved(old(files), a, b, refused)
      ensures history == old(history) + [files]
    {
      ok := a in files && !refused;
      if ok {
        files := (files - {a})[b := files[a]];
      }
      history := history + [files];
    }
  }
}
