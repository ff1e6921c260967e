/**
 * The bounded history buffer both poller loops append to
 * (`LocationHistory = Arc<Mutex<Vec<Record>>>`): a successful poll pushes
 * its record, then drains from the head so that at most `Cap` records
 * remain.
 */
module History {
  import opened Transit

  /** `max_list_len` in both poller loops. */
  const Cap: nat := 720

  function Min(a: int, b: int): int
  {
    if a <= b then a else b
  }

  /** The records kept after eviction: the newest `Min(|s|, Cap)`
      elements of `s`, in their original order. */
  function Window<T>(s: seq<T>): seq<T>
  {
    if |s| <= Cap then s else s[|s| - Cap..]
  }

  /** The window holds `Min(|s|, Cap)` elements and is a suffix of `s`;
      it leaves a sequence within the bound as it is. */
  lemma WindowShape<T>(s: seq<T>)
    ensures |Window(s)| == Min(|s|, Cap)
    ensures Window(s) == s[|s| - |Window(s)|..]
    ensures |s| <= Cap ==> Window(s) == s
  {
  }

  /** Evicting before the next push loses nothing that the window of the
      whole sequence would keep. */
  lemma WindowAppend<T>(s: seq<T>, x: T)
    ensures Window(Window(s) + [x]) == Window(s + [x])
  {
    var w := Window(s);
    if |s| > Cap {
      assert w + [x] == (s + [x])[|s| - Cap..];
      assert (s + [x])[|s| - Cap..][1..] == (s + [x])[|s| + 1 - Cap..];
    }
  }

  /** One push-then-drain keeps the bound, keeps the new record last and
      keeps the older records in order. */
  lemma WindowPush<T>(s: seq<T>, x: T)
    ensures |Window(s + [x])| <= Cap
    ensures |Window(s + [x])| == Min(|s| + 1, Cap)
    ensures Window(s + [x])[|Window(s + [x])| - 1] == x
    ensures Window(s + [x])[..|Window(s + [x])| - 1] == s[|s| + 1 - |Window(s + [x])|..]
  {
    var t := s + [x];
    var w := Window(t);
    assert w == t[|t| - |w|..];
    assert w[..|w| - 1] == t[|t| - |w|..|t| - 1];
    assert t[..|s|] == s;
  }

  /** The state after appending each of `rs`, one at a time. */
  function AppendAll<T>(h: seq<T>, rs: seq<T>): seq<T>
    decreases |rs|
  {
    if rs == [] then h else AppendAll(Window(h + [rs[0]]), rs[1..])
  }

  /** Any number of appends to a buffer within the bound leaves exactly
      the newest `Cap` of everything, in order. */
  lemma {:induction false} AppendAllIsWindow<T>(h: seq<T>, rs: seq<T>)
    requires |h| <= Cap
    ensures AppendAll(h, rs) == Window(h + rs)
    decreases |rs|
  {
    if rs == [] {
      assert h + rs == h;
    } else {
      var s := h + [rs[0]];
      assert s + rs[1..] == h + rs;
      assert |Window(s)| <= Cap;
      calc {
        AppendAll(h, rs);
        AppendAll(Window(s), rs[1..]);
        { AppendAllIsWindow(Window(s), rs[1..]); }
        Window(Window(s) + rs[1..]);
        { WindowConcat(s, rs[1..]); }
        Window(s + rs[1..]);
      }
    }
  }

  /** Taking the window first and then appending more is the same as
      taking the window at the end. */
  lemma {:induction false} WindowConcat<T>(s: seq<T>, rs: seq<T>)
    ensures Window(Window(s) + rs) == Window(s + rs)
    decreases |rs|
  {
    if rs == [] {
      assert Window(s) + rs == Window(s);
      assert s + rs == s;
      if |s| > Cap {
        assert Window(s)[|Window(s)| - Cap..] == Window(s);
      }
    } else {
      var last := rs[|rs| - 1];
      var front := rs[..|rs| - 1];
      assert rs == front + [last];
      WindowConcat(s, front);
      calc {
        Window(Window(s) + rs);
        { assert Window(s) + rs == (Window(s) + front) + [last]; }
        Window((Window(s) + front) + [last]);
        { WindowAppend(Window(s) + front, last); }
        Window(Window(Window(s) + front) + [last]);
        Window(Window(s + front) + [last]);
        { WindowAppend(s + front, last); }
        Window((s + front) + [last]);
        { assert (s + front) + [last] == s + rs; }
        Window(s + rs);
      }
    }
  }

  /** Starting from the empty buffer, N appends leave the last Min(N, Cap)
      appended records, in the order they were appended. */
  lemma AppendsFromEmpty<T>(rs: seq<T>)
    ensures |AppendAll([], rs)| == Min(|rs|, Cap)
    ensures AppendAll([], rs) == rs[|rs| - Min(|rs|, Cap)..]
  {
    AppendAllIsWindow([], rs);
    assert [] + rs == rs;
  }

  /** The shared history vector. */
  class HistoryBuffer {
    var records: seq<Record>

    ghost predicate Valid()
      reads this
    {
      |records| <= Cap
    }

    /** `Vec::new()` */
    constructor ()
      ensures Valid() && records == []
    {
      records := [];
    }

    /** `list.push(record)`, then `list.drain(0..(list_len - max_list_len))`
        when the list is longer than `max_list_len`. */
    method Append(r: Record)
      modifies this
      ensures Valid()
      ensures records == Window(old(records) + [r])
    {
      records := records + [r];
      var listLen := |records|;
      if listLen > Cap {
        records := records[listLen - Cap..];
      }
    }

    /** `get_history`: a copy of the whole buffer, oldest first; the
        buffer is not changed. */
    method Snapshot() returns (copy: seq<Record>)
      ensures copy == records
    {
      copy := records;
    }
  }
}
