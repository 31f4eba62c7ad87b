/**
 * getprompt (main.c:21-45): the shell prompt "name@host:" assembled in a
 * heap buffer. The user name and the host name come from foreign calls
 * (getpwuid, gethostname) and are parameters here.
 *
 * The heap is modelled as a sequence of characters and each store as a
 * `Write`; a store outside the allocation makes the whole run undefined
 * (`None`). This is what exposes the size computed at line 36.
 */
module Prompt {
  import opened CStr
  import opened Options

  /** `char hostname[256]` */
  const HOSTNAME_BUF: nat := 256
  /** The length passed to gethostname at line 28. */
  const GETHOSTNAME_LEN: nat := 254

  function Min(a: nat, b: nat): nat { if a < b then a else b }

  /**
   * The host-name buffer after line 27 stores NUL in its last byte and
   * gethostname(hostname, 254) copies min(254, |host| + 1) bytes of the host
   * name and its NUL (a longer name is truncated without a NUL). Bytes it
   * does not reach keep their uninitialised contents `junk`.
   */
  function HostnameBuffer(host: seq<char>, junk: seq<char>): (buf: seq<char>)
    requires |junk| == HOSTNAME_BUF
    ensures |buf| == HOSTNAME_BUF
    ensures buf[HOSTNAME_BUF - 1] == NUL
    ensures forall i :: 0 <= i < Min(|host|, GETHOSTNAME_LEN) ==> buf[i] == host[i]
    ensures |host| < GETHOSTNAME_LEN ==> buf[|host|] == NUL
    ensures forall i :: Min(|host| + 1, GETHOSTNAME_LEN) <= i < HOSTNAME_BUF - 1 ==> buf[i] == junk[i]
  {
    var stamped := junk[HOSTNAME_BUF - 1 := NUL];
    var copied := (host + [NUL])[..Min(|host| + 1, GETHOSTNAME_LEN)];
    copied + stamped[|copied|..]
  }

  /**
   * The host name getprompt uses: the C string in the buffer. It is at most
   * 255 characters long whatever the buffer held before, and it is the
   * host name itself when that fits in the 254 bytes given to gethostname.
   */
  function Hostname(host: seq<char>, junk: seq<char>): (h: seq<char>)
    requires NUL !in host
    requires |junk| == HOSTNAME_BUF
    ensures |h| <= HOSTNAME_BUF - 1
    ensures NUL !in h
    ensures |host| < GETHOSTNAME_LEN ==> h == host
    ensures |host| >= GETHOSTNAME_LEN ==>
      |h| >= GETHOSTNAME_LEN && h[..GETHOSTNAME_LEN] == host[..GETHOSTNAME_LEN]
  {
    var buf := HostnameBuffer(host, junk);
    var h := UntilNul(buf);
    assert buf[HOSTNAME_BUF - 1] == NUL;
    if |host| < GETHOSTNAME_LEN then
      assert buf == host + [NUL] + junk[HOSTNAME_BUF - 1 := NUL][|host| + 1..];
      UntilNulTerminated(host, junk[HOSTNAME_BUF - 1 := NUL][|host| + 1..]);
      UntilNulNoNul(host);
      h
    else
      assert buf[..GETHOSTNAME_LEN] == host[..GETHOSTNAME_LEN];
      assert NUL !in buf[..GETHOSTNAME_LEN];
      PrefixWithoutNul(buf, GETHOSTNAME_LEN);
      h
  }

  /** A C string is at least as long as a NUL-free prefix of its buffer. */
  lemma {:induction false} PrefixWithoutNul(buf: seq<char>, k: nat)
    requires k <= |buf| && NUL !in buf[..k]
    ensures |UntilNul(buf)| >= k
    ensures UntilNul(buf)[..k] == buf[..k]
  {
    if k > 0 {
      assert buf[0] == buf[..k][0];
      assert buf[1..][..k - 1] == buf[..k][1..];
      PrefixWithoutNul(buf[1..], k - 1);
    }
  }

  /** The prompt text main prints: the user name, '@', the host name and ':'. */
  function PromptText(name: seq<char>, host: seq<char>): seq<char>
  {
    name + ['@'] + host + [':']
  }

  /** One store into the heap buffer. */
  datatype Write = Write(index: nat, value: char)

  /** strcpy(dst + at, src): the characters of `src`, then its terminating NUL. */
  function StrcpyWrites(at: nat, src: seq<char>): (ws: seq<Write>)
    ensures |ws| == |src| + 1
    ensures ws[|src|] == Write(at + |src|, NUL)
    decreases |src|
  {
    if |src| == 0 then [Write(at, NUL)]
    else [Write(at, src[0])] + StrcpyWrites(at + 1, src[1..])
  }

  /** strcpy stores |src| + 1 bytes, at consecutive indices from `at`. */
  lemma {:induction false} StrcpyIndices(at: nat, src: seq<char>)
    ensures var ws := StrcpyWrites(at, src);
      && |ws| == |src| + 1
      && forall i :: 0 <= i < |ws| ==> ws[i].index == at + i
    decreases |src|
  {
    if |src| > 0 {
      StrcpyIndices(at + 1, src[1..]);
    }
  }

  /** The stores getprompt performs, in order (lines 38 to 42). */
  function GetpromptWrites(name: seq<char>, host: seq<char>): (ws: seq<Write>)
    ensures |ws| == |name| + |host| + 5
    ensures ws[|name| + 1] == Write(|name|, '@')
    ensures ws[|ws| - 2] == Write(|name| + |host| + 1, ':')
    ensures ws[|ws| - 1] == Write(|name| + |host| + 2, NUL)
  {
    StrcpyIndices(0, name);
    StrcpyIndices(|name| + 1, host);
    StrcpyWrites(0, name)
    + [Write(|name|, '@')]
    + StrcpyWrites(|name| + 1, host)
    + [Write(|name| + |host| + 1, ':'), Write(|name| + |host| + 2, NUL)]
  }

  /**
   * Performs the stores on a buffer of |mem| bytes; `None` when a store falls
   * outside it, which C leaves undefined.
   */
  function Store(mem: seq<char>, ws: seq<Write>): (r: Option<seq<char>>)
    ensures r.Some? ==> |r.value| == |mem|
    decreases |ws|
  {
    if |ws| == 0 then Some(mem)
    else if ws[0].index < |mem| then Store(mem[ws[0].index := ws[0].value], ws[1..])
    else None
  }

  /** The stores are defined exactly when every one of them is in bounds. */
  lemma {:induction false} StoreDefinedIff(mem: seq<char>, ws: seq<Write>)
    ensures Store(mem, ws).Some? <==> forall i :: 0 <= i < |ws| ==> ws[i].index < |mem|
    decreases |ws|
  {
    if |ws| > 0 && ws[0].index < |mem| {
      var m := mem[ws[0].index := ws[0].value];
      StoreDefinedIff(m, ws[1..]);
      assert forall i :: 1 <= i < |ws| ==> ws[i] == ws[1..][i - 1];
    }
  }

  /** Running two batches of stores is running the first, then the second on its result. */
  lemma {:induction false} StoreAppend(mem: seq<char>, a: seq<Write>, b: seq<Write>)
    ensures Store(mem, a + b) == (if Store(mem, a).Some? then Store(Store(mem, a).value, b) else None)
    decreases |a|
  {
    if |a| == 0 {
      assert a + b == b;
    } else {
      assert (a + b)[0] == a[0];
      assert (a + b)[1..] == a[1..] + b;
      if a[0].index < |mem| {
        var m := mem[a[0].index := a[0].value];
        assert Store(mem, a + b) == Store(m, a[1..] + b);
        assert Store(mem, a) == Store(m, a[1..]);
        StoreAppend(m, a[1..], b);
      }
    }
  }

  /** One store in bounds, then the rest. */
  lemma {:induction false} StoreCons(mem: seq<char>, w: Write, ws: seq<Write>)
    requires w.index < |mem|
    ensures Store(mem, [w] + ws) == Store(mem[w.index := w.value], ws)
  {
    assert ([w] + ws)[0] == w && ([w] + ws)[1..] == ws;
  }

  /** Two stores in bounds. */
  lemma {:induction false} StorePair(mem: seq<char>, w1: Write, w2: Write)
    requires w1.index < |mem| && w2.index < |mem|
    ensures Store(mem, [w1, w2]) == Some(mem[w1.index := w1.value][w2.index := w2.value])
  {
    var m := mem[w1.index := w1.value];
    assert [w1, w2][1..] == [w2];
    assert [w2][1..] == [];
    assert Store(m, [w2]) == Store(m[w2.index := w2.value], []);
  }

  /** strcpy into a buffer with room for the string and its NUL. */
  lemma {:induction false} StoreStrcpy(mem: seq<char>, at: nat, src: seq<char>)
    requires at + |src| < |mem|
    ensures Store(mem, StrcpyWrites(at, src)) == Some(mem[..at] + src + [NUL] + mem[at + |src| + 1..])
    decreases |src|
  {
    var ws := StrcpyWrites(at, src);
    if |src| == 0 {
      StoreCons(mem, Write(at, NUL), []);
      assert mem[..at] + src + [NUL] + mem[at + |src| + 1..] == mem[..at] + [NUL] + mem[at + 1..];
      assert mem[at := NUL] == mem[..at] + [NUL] + mem[at + 1..];
    } else {
      var m := mem[at := src[0]];
      assert ws[0] == Write(at, src[0]);
      assert ws[1..] == StrcpyWrites(at + 1, src[1..]);
      assert Store(mem, ws) == Store(m, ws[1..]);
      StoreStrcpy(m, at + 1, src[1..]);
      assert m[..at + 1] == mem[..at] + [src[0]];
      assert m[at + 1 + |src[1..]| + 1..] == mem[at + |src| + 1..];
      calc {
        m[..at + 1] + src[1..] + [NUL] + m[at + 1 + |src[1..]| + 1..];
        mem[..at] + [src[0]] + src[1..] + [NUL] + mem[at + |src| + 1..];
        { assert [src[0]] + src[1..] == src; }
        mem[..at] + src + [NUL] + mem[at + |src| + 1..];
      }
    }
  }

  /** The allocation at line 36: hostname_len + name_len + 3 - 1 bytes. */
  function AllocAsWritten(name: seq<char>, host: seq<char>): (a: nat)
    ensures a < AllocCorrected(name, host)
  {
    |host| + |name| + 3 - 1
  }

  /** The allocation the stores need: room for "name@host:" and its NUL. */
  function AllocCorrected(name: seq<char>, host: seq<char>): nat
  {
    |host| + |name| + 3
  }

  /**
   * The indices getprompt stores to: every store but the last lands below
   * |name| + |host| + 2, and the last one at |name| + |host| + 2.
   */
  lemma {:induction false} PromptWriteIndices(name: seq<char>, host: seq<char>)
    ensures var ws := GetpromptWrites(name, host);
      && |ws| == |name| + |host| + 5
      && ws[|ws| - 1].index == |name| + |host| + 2
      && forall i :: 0 <= i < |ws| - 1 ==> ws[i].index <= |name| + |host| + 1
  {
    var ws := GetpromptWrites(name, host);
    var a := StrcpyWrites(0, name);
    var c := StrcpyWrites(|name| + 1, host);
    StrcpyIndices(0, name);
    StrcpyIndices(|name| + 1, host);
    forall i | 0 <= i < |ws| - 1
      ensures ws[i].index <= |name| + |host| + 1
    {
      if i < |a| {
        assert ws[i] == a[i];
      } else if i == |a| {
      } else if i < |a| + 1 + |c| {
        assert ws[i] == c[i - |a| - 1];
      }
    }
  }

  /**
   * getprompt as written always stores past its allocation, and by exactly one
   * byte: every store but the final NUL at line 42 fits, and that one lands
   * at index |name| + |host| + 2, which equals the allocated size.
   */
  lemma {:induction false} AsWrittenOverflows(name: seq<char>, host: seq<char>, mem: seq<char>)
    requires |mem| == AllocAsWritten(name, host)
    ensures Store(mem, GetpromptWrites(name, host)) == None
    ensures var ws := GetpromptWrites(name, host);
      && ws[|ws| - 1].index == |mem|
      && Store(mem, ws[..|ws| - 1]).Some?
  {
    PromptWriteIndices(name, host);
    LastStoreOverflows(mem, GetpromptWrites(name, host));
  }

  /** A batch whose last store, and only that one, is one past the end of the buffer. */
  lemma {:induction false} LastStoreOverflows(mem: seq<char>, ws: seq<Write>)
    requires |ws| > 0 && ws[|ws| - 1].index == |mem|
    requires forall i :: 0 <= i < |ws| - 1 ==> ws[i].index < |mem|
    ensures Store(mem, ws) == None
    ensures Store(mem, ws[..|ws| - 1]).Some?
  {
    StoreDefinedIff(mem, ws);
    StoreDefinedIff(mem, ws[..|ws| - 1]);
  }

  /** The smallest buffer getprompt's stores fit in is |name| + |host| + 3 bytes. */
  lemma {:induction false} PromptFitsIff(name: seq<char>, host: seq<char>, mem: seq<char>)
    ensures Store(mem, GetpromptWrites(name, host)).Some? <==> |mem| >= AllocCorrected(name, host)
  {
    PromptWriteIndices(name, host);
    StoreDefinedIff(mem, GetpromptWrites(name, host));
  }

  /**
   * With the corrected allocation, whatever the fresh heap bytes held, the
   * buffer ends up holding exactly the prompt text followed by its NUL, so the
   * string printed at line 58 is "name@host:" with length |name| + |host| + 2.
   */
  lemma {:induction false} CorrectedFits(name: seq<char>, host: seq<char>, mem: seq<char>)
    requires |mem| == AllocCorrected(name, host)
    ensures Store(mem, GetpromptWrites(name, host)) == Some(PromptText(name, host) + [NUL])
  {
    StoreNameAndAt(name, host, mem);
    StoreHostAndTail(name, host, mem[|name| + 1..]);
  }

  /** Lines 38 and 39: strcpy of the user name, then '@' over its NUL. */
  lemma {:induction false} StoreNameAndAt(name: seq<char>, host: seq<char>, mem: seq<char>)
    requires |mem| == AllocCorrected(name, host)
    ensures Store(mem, GetpromptWrites(name, host))
      == Store(name + ['@'] + mem[|name| + 1..],
           StrcpyWrites(|name| + 1, host) + [Write(|name| + |host| + 1, ':'), Write(|name| + |host| + 2, NUL)])
  {
    var n, h := |name|, |host|;
    var a := StrcpyWrites(0, name);
    var c := StrcpyWrites(n + 1, host);
    var tail := [Write(n + h + 1, ':'), Write(n + h + 2, NUL)];
    var rest := [Write(n, '@')] + (c + tail);
    assert GetpromptWrites(name, host) == a + rest;
    var m1 := name + [NUL] + mem[n + 1..];
    assert Store(mem, a + rest) == Store(m1, rest) by {
      StoreStrcpy(mem, 0, name);
      assert mem[..0] + name + [NUL] + mem[0 + n + 1..] == m1;
      StoreAppend(mem, a, rest);
    }
    assert Store(m1, rest) == Store(name + ['@'] + mem[n + 1..], c + tail) by {
      assert m1[n := '@'] == name + ['@'] + mem[n + 1..];
      StoreCons(m1, Write(n, '@'), c + tail);
    }
  }

  /** Lines 40 to 42 on the buffer holding "name@" and |host| + 2 bytes still free. */
  lemma {:induction false} StoreHostAndTail(name: seq<char>, host: seq<char>, free: seq<char>)
    requires |free| == |host| + 2
    ensures Store(name + ['@'] + free,
        StrcpyWrites(|name| + 1, host) + [Write(|name| + |host| + 1, ':'), Write(|name| + |host| + 2, NUL)])
      == Some(PromptText(name, host) + [NUL])
  {
    var n, h := |name|, |host|;
    var c := StrcpyWrites(n + 1, host);
    var tail := [Write(n + h + 1, ':'), Write(n + h + 2, NUL)];
    var m2 := name + ['@'] + free;
    var m3 := name + ['@'] + host + [NUL] + free[h + 1..];
    assert Store(m2, c + tail) == Store(m3, tail) by {
      StoreStrcpy(m2, n + 1, host);
      assert m2[..n + 1] + host + [NUL] + m2[n + 1 + h + 1..] == m3;
      StoreAppend(m2, c, tail);
    }
    assert Store(m3, tail) == Some(PromptText(name, host) + [NUL]) by {
      StorePair(m3, Write(n + h + 1, ':'), Write(n + h + 2, NUL));
      assert m3[n + h + 1 := ':'][n + h + 2 := NUL] == PromptText(name, host) + [NUL];
    }
  }

  /**
   * getprompt with the corrected allocation: `None` (NULL) when malloc fails,
   * otherwise the prompt string. Fresh heap bytes are uninitialised; the
   * placeholder used for them does not matter by CorrectedFits.
   */
  function Getprompt(name: seq<char>, host: seq<char>, junk: seq<char>, mallocOk: bool): (p: Option<seq<char>>)
    requires NUL !in name && NUL !in host
    requires |junk| == HOSTNAME_BUF
    ensures !mallocOk <==> p == None
    ensures p.Some? ==> p.value == PromptText(name, Hostname(host, junk))
    ensures p.Some? ==> |p.value| == |name| + |Hostname(host, junk)| + 2 <= |name| + HOSTNAME_BUF + 1
  {
    if !mallocOk then None
    else
      var hostname := Hostname(host, junk);
      var mem := seq(AllocCorrected(name, hostname), _ => NUL);
      CorrectedFits(name, hostname, mem);
      PromptCString(name, hostname);
      Some(UntilNul(Store(mem, GetpromptWrites(name, hostname)).value))
  }

  /**
   * getprompt's stores on a real array of the corrected size: every index is
   * bounds-checked, and the array holds "name@host:" with its NUL at index
   * |name| + |host| + 2.
   */
  method BuildPrompt(name: seq<char>, host: seq<char>) returns (prompt: array<char>)
    requires NUL !in name && NUL !in host
    ensures prompt.Length == AllocCorrected(name, host)
    ensures prompt[..] == PromptText(name, host) + [NUL]
    ensures Strlen(prompt[..]) == |name| + |host| + 2
  {
    var nameLen := |name|;
    var hostLen := |host|;
    prompt := new char[hostLen + nameLen + 3];
    // strcpy(prompt, name)
    var i := 0;
    while i < nameLen
      invariant 0 <= i <= nameLen
      invariant forall k :: 0 <= k < i ==> prompt[k] == name[k]
    {
      prompt[i] := name[i];
      i := i + 1;
    }
    prompt[nameLen] := NUL;
    prompt[nameLen] := '@';
    // strcpy(prompt + name_len + 1, hostname)
    var j := 0;
    while j < hostLen
      invariant 0 <= j <= hostLen
      invariant forall k :: 0 <= k < nameLen ==> prompt[k] == name[k]
      invariant prompt[nameLen] == '@'
      invariant forall k :: 0 <= k < j ==> prompt[nameLen + 1 + k] == host[k]
    {
      prompt[nameLen + 1 + j] := host[j];
      j := j + 1;
    }
    prompt[nameLen + 1 + hostLen] := NUL;
    prompt[nameLen + hostLen + 1] := ':';
    prompt[nameLen + hostLen + 2] := NUL;
    ghost var expected := PromptText(name, host) + [NUL];
    assert forall k :: 0 <= k < prompt.Length ==> prompt[k] == expected[k];
    assert prompt[..] == expected;
    PromptCString(name, host);
  }

  /** The prompt holds no NUL, so the buffer's C string is the whole prompt. */
  lemma {:induction false} PromptCString(name: seq<char>, host: seq<char>)
    requires NUL !in name && NUL !in host
    ensures UntilNul(PromptText(name, host) + [NUL]) == PromptText(name, host)
  {
    var p := PromptText(name, host);
    assert NUL !in p;
    UntilNulTerminated(p, []);
    assert p + [NUL] + [] == p + [NUL];
    UntilNulNoNul(p);
  }
}
