/** Dotted translation keys: JavaScript's `key.split('.')` and its inverse `segments.join('.')`. */
module Keys {

  /** The number of '.' characters in `s`. */
  function CountDots(s: string): nat
  {
    if s == "" then 0 else (if s[0] == '.' then 1 else 0) + CountDots(s[1..])
  }

  /** `s.split('.')`: the maximal dot-free pieces of `s`, in order, empty pieces included. */
  function Split(s: string): (segs: seq<string>)
    ensures |segs| == CountDots(s) + 1
    ensures forall i :: 0 <= i < |segs| ==> '.' !in segs[i]
  {
    if s == "" then [""]
    else
      var rest := Split(s[1..]);
      if s[0] == '.' then [""] + rest
      else [[s[0]] + rest[0]] + rest[1..]
  }

  /** `segs.join('.')`. */
  function Join(segs: seq<string>): string
  {
    if |segs| == 0 then ""
    else if |segs| == 1 then segs[0]
    else segs[0] + "." + Join(segs[1..])
  }

  /** Prepending a character to the first segment prepends it to the joined string. */
  lemma JoinConsFirst(c: char, segs: seq<string>)
    requires segs != []
    ensures Join([[c] + segs[0]] + segs[1..]) == [c] + Join(segs)
  {
  }

  /** Joining the pieces of a key with '.' gives back the key. */
  lemma {:induction false} JoinSplit(s: string)
    ensures Join(Split(s)) == s
  {
    if s != "" {
      var rest := Split(s[1..]);
      JoinSplit(s[1..]);
      if s[0] == '.' {
        assert ([""] + rest)[1..] == rest;
        assert Join(Split(s)) == "" + "." + Join(rest);
      } else {
        JoinConsFirst(s[0], rest);
      }
      assert s == [s[0]] + s[1..];
    }
  }

  /** Splitting `w + t` where `w` has no dot glues `w` to the front of the first piece of `t`. */
  lemma {:induction false} SplitDotFree(w: string, t: string)
    requires '.' !in w
    ensures Split(w + t) == [w + Split(t)[0]] + Split(t)[1..]
  {
    if w == "" {
      assert w + t == t;
      assert w + Split(t)[0] == Split(t)[0];
      assert Split(t) == [Split(t)[0]] + Split(t)[1..];
    } else {
      assert (w + t)[1..] == w[1..] + t;
      assert (w + t)[0] == w[0];
      SplitDotFree(w[1..], t);
      assert [w[0]] + (w[1..] + Split(t)[0]) == w + Split(t)[0];
    }
  }

  /** Splitting after joining dot-free segments gives back the segments. */
  lemma {:induction false} SplitJoin(segs: seq<string>)
    requires segs != []
    requires forall i :: 0 <= i < |segs| ==> '.' !in segs[i]
    ensures Split(Join(segs)) == segs
  {
    if |segs| == 1 {
      SplitDotFree(segs[0], "");
      assert segs[0] + "" == segs[0];
    } else {
      var tailJoined := Join(segs[1..]);
      SplitJoin(segs[1..]);
      assert Join(segs) == segs[0] + ("." + tailJoined);
      assert ("." + tailJoined)[1..] == tailJoined;
      assert Split("." + tailJoined) == [""] + segs[1..];
      SplitDotFree(segs[0], "." + tailJoined);
      assert segs[0] + "" == segs[0];
    }
  }
}
