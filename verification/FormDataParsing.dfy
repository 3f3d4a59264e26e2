/**
 * The multipart parser over its sliding buffer. Each method is proved against
 * the parser on plain values; the buffer, its compaction and its search loops
 * disappear behind `View`.
 */
module FormDataParsing {
  import opened Http
  import opened Multipart
  import opened Search

  lemma SliceAt(s: string, lo: nat, hi: nat, pos: nat, n: nat)
    requires lo <= pos && 0 < n && pos + n <= hi <= |s|
    ensures s[lo..hi][pos - lo] == s[pos]
    ensures s[lo..hi][pos - lo..pos - lo + n] == s[pos..pos + n]
  {
    var a, b := s[lo..hi][pos - lo..pos - lo + n], s[pos..pos + n];
    forall i | 0 <= i < n ensures a[i] == b[i] {
      assert a[i] == s[lo..hi][pos - lo + i] == s[pos + i];
    }
    assert |a| == |b|;
  }

  lemma NothingBetween(b: string, lo: nat, hi: nat, off: nat, pos: nat, s: string)
    requires lo <= off <= pos <= hi <= |b| && s != ""
    requires forall j :: off <= j < pos ==> b[j] != s[0]
    ensures forall j :: off - lo <= j < pos - lo ==> !OccursAt(b[lo..hi], s, j)
  {
    var w := b[lo..hi];
    forall j | off - lo <= j < pos - lo ensures !OccursAt(w, s, j) {
      assert w[j] == b[lo + j];
      assert j + |s| <= |w| ==> w[j..j + |s|][0] == w[j];
    }
  }

  class FormDataParser<F(!new)> {
    // The form entry's blank value, the header-line decoder and the client.
    const blank: F
    const decode: (F, string) -> (F, bool)
    const accept: seq<Event<F>> -> bool

    var boundary: string
    var dashBoundaryCrlf: string
    var crlfDashBoundary: string

    var state: State
    var valid: bool
    var file: F
    var log: seq<Event<F>>

    // Buffer: the bytes not yet consumed are buf[spos..epos].
    var buf: array<char>
    var spos: nat
    var epos: nat

    ghost predicate Valid()
      reads this
    {
      && spos <= epos <= buf.Length
      && dashBoundaryCrlf == Cfg().DashBoundaryCrlf()
      && crlfDashBoundary == Cfg().CrlfDashBoundary()
    }

    ghost function Cfg(): Config<F>
      reads this
    {
      Config(boundary, blank, decode, accept)
    }

    ghost function Window(): string
      reads this, buf
      requires Valid()
    {
      buf[spos..epos]
    }

    /** The abstract parser this object stands for. */
    ghost function View(): Parser<F>
      reads this, buf
      requires Valid()
    {
      Parser(state, valid, file, Window(), log)
    }

    constructor (blank: F, decode: (F, string) -> (F, bool), accept: seq<Event<F>> -> bool)
      ensures Valid() && fresh(buf)
      ensures Cfg() == Config("", blank, decode, accept)
      ensures View() == Start(Cfg())
    {
      this.blank := blank;
      this.decode := decode;
      this.accept := accept;
      boundary := "";
      dashBoundaryCrlf := DASH + "" + CRLF;
      crlfDashBoundary := CRLF + DASH + "";
      state, valid, file, log := Initial, false, blank, [];
      buf := new char[0];
      spos, epos := 0, 0;
    }

    method SetBoundary(b: string)
      requires Valid()
      modifies this`boundary, this`dashBoundaryCrlf, this`crlfDashBoundary
      ensures Valid() && Cfg() == old(Cfg()).(boundary := b)
      ensures View() == old(View())
    {
      boundary := b;
      dashBoundaryCrlf := DASH + b + CRLF;
      crlfDashBoundary := CRLF + DASH + b;
    }

    // ------------------------------------------------------------- buffer

    method StartWith(pos: nat, s: string) returns (b: bool)
      requires Valid() && spos <= pos <= epos
      ensures b == (|s| <= epos - pos && buf[pos..pos + |s|] == s)
    {
      if epos - pos < |s| {
        return false;
      }
      for i := 0 to |s|
        invariant buf[pos..pos + i] == s[..i]
      {
        if buf[pos + i] != s[i] {
          assert buf[pos..pos + |s|][i] == buf[pos + i];
          return false;
        }
        assert buf[pos..pos + i + 1] == buf[pos..pos + i] + [buf[pos + i]];
      }
      assert s[..|s|] == s;
      return true;
    }

    method BufStartWith(s: string) returns (b: bool)
      requires Valid()
      ensures b == (|s| <= |Window()| && Window()[..|s|] == s)
    {
      b := StartWith(spos, s);
      if s != "" && |s| <= epos - spos {
        SliceAt(buf[..], spos, epos, spos, |s|);
      }
    }

    /** The inner loop of buf_find: the next position that holds `c`. */
    method NextChar(off: nat, c: char) returns (pos: nat)
      requires Valid() && spos <= off <= epos
      ensures off <= pos <= epos && (pos < epos ==> buf[pos] == c)
      ensures forall j :: off <= j < pos ==> buf[j] != c
    {
      pos := off;
      while pos < epos && buf[pos] != c
        invariant off <= pos <= epos
        invariant forall j :: off <= j < pos ==> buf[j] != c
      {
        pos := pos + 1;
      }
    }

    /** The first occurrence of `s` in the window, or the window's size. */
    method BufFind(s: string) returns (k: nat)
      requires Valid() && s != ""
      ensures k == Find(Window(), s)
    {
      ghost var w := Window();
      k := epos - spos;
      var off := spos;
      while off < epos
        invariant spos <= off <= epos
        invariant forall j :: 0 <= j < off - spos ==> !OccursAt(w, s, j)
      {
        var pos := NextChar(off, s[0]);
        NothingBetween(buf[..], spos, epos, off, pos, s);
        if |s| > epos - pos {
          FindIs(w, s, |w|);
          return;
        }
        var here := StartWith(pos, s);
        SliceAt(buf[..], spos, epos, pos, |s|);
        if here {
          FindIs(w, s, pos - spos);
          k := pos - spos;
          return;
        }
        off := pos + 1;
      }
      FindIs(w, s, |w|);
    }

    /** Moves the window to the front of the buffer, in place. */
    method Compact()
      requires Valid()
      modifies this`spos, this`epos, buf
      ensures Valid() && spos == 0 && Window() == old(Window())
    {
      var remainingSize := epos - spos;
      if remainingSize > 0 && spos > 0 {
        for i := 0 to remainingSize
          modifies buf
          invariant forall k :: 0 <= k < i ==> buf[k] == old(buf[spos + k])
          invariant forall k :: i <= k < buf.Length ==> buf[k] == old(buf[k])
        {
          buf[i] := buf[spos + i];
        }
      }
      spos := 0;
      epos := remainingSize;
    }

    method Grow(size: nat)
      requires Valid()
      modifies this`buf
      ensures Valid() && Window() == old(Window()) && buf.Length >= size
      ensures buf == old(buf) || fresh(buf)
    {
      if size > buf.Length {
        var bigger := new char[size];
        forall i | 0 <= i < size {
          bigger[i] := if i < buf.Length then buf[i] else '\0';
        }
        buf := bigger;
      }
    }

    /** Writes `data` into the buffer behind the window. */
    method WriteBehind(data: string)
      requires Valid() && epos + |data| <= buf.Length
      modifies this`epos, buf
      ensures Valid() && Window() == old(Window()) + data
    {
      for i := 0 to |data|
        modifies buf
        invariant forall j :: spos <= j < epos ==> buf[j] == old(buf[j])
        invariant forall j :: 0 <= j < i ==> buf[epos + j] == data[j]
      {
        buf[epos + i] := data[i];
      }
      assert buf[spos..epos] == old(buf[spos..epos]);
      assert buf[epos..epos + |data|] == data;
      assert buf[spos..epos + |data|] == buf[spos..epos] + buf[epos..epos + |data|];
      epos := epos + |data|;
    }

    method BufAppend(data: string)
      requires Valid()
      modifies this`spos, this`epos, this`buf, buf
      ensures Valid() && Window() == old(Window()) + data
      ensures buf == old(buf) || fresh(buf)
    {
      Compact();
      Grow(epos + |data|);
      WriteBehind(data);
    }

    method BufErase(size: nat)
      requires Valid() && size <= |Window()|
      modifies this`spos
      ensures Valid() && Window() == old(Window())[size..]
    {
      spos := spos + size;
    }

    // -------------------------------------------------------------- parse

    /** Tells the client; false when it refuses. */
    method Notify(e: Event<F>) returns (ok: bool)
      requires Valid()
      modifies this`log, this`valid
      ensures Valid() && View() == old(Emit(Cfg(), View(), e))
      ensures ok == accept(log)
    {
      log := log + [e];
      ok := accept(log);
      if !ok {
        valid := false;
      }
    }

    method ParseInitial() returns (v: Verdict)
      requires Valid() && state.Initial? && spos < epos
      modifies this`state, this`spos
      ensures Valid() && (View(), v) == old(Step(Cfg(), View()))
    {
      var pos := BufFind(dashBoundaryCrlf);
      if pos == epos - spos {
        return Stop(true);
      }
      BufErase(pos + |dashBoundaryCrlf|);
      state := Entry;
      v := More;
    }

    method ReadEmptyLine() returns (v: Verdict)
      requires Valid() && epos - spos >= 2
      modifies this`state, this`valid, this`log, this`spos
      ensures Valid() && (View(), v) == old(EmptyLine(Cfg(), View()))
      ensures log == old(log) + [Header(file)]
      ensures if accept(log) then v.More? && state.Body? && valid == old(valid) else v == Stop(false) && !valid
    {
      var ok := Notify(Header(file));
      if !ok {
        return Stop(false);
      }
      BufErase(2);
      state := Body;
      v := More;
    }

    method ReadHeaderLine(pos: nat) returns (v: Verdict)
      requires Valid() && pos + 2 <= epos - spos
      modifies this`valid, this`file, this`spos
      ensures Valid() && (View(), v) == old(HeaderLine(Cfg(), View(), pos))
      ensures var (file', ok) := decode(old(file), old(Window())[..pos]);
              && file == file'
              && (if ok then v.More? && valid == old(valid) && Window() == old(Window())[pos + 2..]
                  else v == Stop(false) && !valid)
    {
      var header := buf[spos..spos + pos];
      assert header == Window()[..pos];
      var (file', ok) := decode(file, header);
      file := file';
      if !ok {
        valid := false;
        return Stop(false);
      }
      BufErase(pos + 2);
      v := More;
    }

    method ParseHeaders() returns (v: Verdict)
      requires Valid() && state.Headers? && spos < epos
      modifies this`state, this`valid, this`file, this`log, this`spos
      ensures Valid() && (View(), v) == old(Step(Cfg(), View()))
    {
      var pos := BufFind(CRLF);
      if pos > HEADER_MAX_LENGTH {
        return Stop(false);
      }
      ghost var goal := HeaderLines(Cfg(), View());
      v := More;
      while pos < epos - spos
        invariant Valid() && state.Headers?
        invariant pos == Find(Window(), CRLF)
        invariant goal == HeaderLines(Cfg(), View())
        decreases epos - spos
      {
        if pos == 0 {
          v := ReadEmptyLine();
          return;
        }
        v := ReadHeaderLine(pos);
        if v.Stop? {
          return;
        }
        pos := BufFind(CRLF);
      }
      v := Stop(true);
    }

    /** Hands the first `len` bytes of the window to the client. */
    method Deliver(len: nat) returns (ok: bool)
      requires Valid() && len <= epos - spos
      modifies this`log, this`valid
      ensures Valid() && View() == old(Emit(Cfg(), View(), Content(Window()[..len])))
      ensures ok == accept(log)
    {
      assert buf[spos..spos + len] == Window()[..len];
      ok := Notify(Content(buf[spos..spos + len]));
    }

    /** The whole of the content left has arrived, with its delimiter. */
    method EndBody(pos: nat) returns (v: Verdict)
      requires Valid() && state.Body? && pos + |crlfDashBoundary| <= epos - spos
      requires pos == Find(Window(), crlfDashBoundary) < |Window()|
      modifies this`state, this`valid, this`log, this`spos
      ensures Valid() && (View(), v) == old(BodyStep(Cfg(), View()))
      ensures log == old(log) + [Content(old(Window())[..pos])]
      ensures if accept(log) then v.More? && state.Boundary? && valid == old(valid) else v == Stop(false) && !valid
    {
      var ok := Deliver(pos);
      if !ok {
        return Stop(false);
      }
      BufErase(pos + |crlfDashBoundary|);
      state := Boundary;
      v := More;
    }

    method ParseBody() returns (v: Verdict)
      requires Valid() && state.Body?
      modifies this`state, this`valid, this`log, this`spos
      ensures Valid() && (View(), v) == old(BodyStep(Cfg(), View()))
    {
      if |crlfDashBoundary| > epos - spos {
        return Stop(true);
      }
      var pos := BufFind(crlfDashBoundary);
      if pos < epos - spos {
        v := EndBody(pos);
      } else {
        var len := epos - spos - |crlfDashBoundary|;
        if len > 0 {
          var ok := Deliver(len);
          if !ok {
            return Stop(false);
          }
          BufErase(len);
        }
        v := Stop(true);
      }
    }

    method ParseBoundary() returns (v: Verdict)
      requires Valid() && state.Boundary? && spos < epos
      modifies this`state, this`valid, this`spos
      ensures Valid() && (View(), v) == old(Step(Cfg(), View()))
    {
      if |CRLF| > epos - spos {
        return Stop(true);
      }
      var next := BufStartWith(CRLF);
      if next {
        BufErase(2);
        state := Entry;
        return More;
      }
      var last := BufStartWith(DASH);
      if last {
        BufErase(2);
        valid := true;
        BufErase(epos - spos);
        return More;
      }
      v := Stop(true);
    }

    /** One turn of the loop. */
    method Turn() returns (v: Verdict)
      requires Valid() && spos < epos
      modifies this`state, this`valid, this`file, this`log, this`spos
      ensures Valid() && (View(), v) == old(Step(Cfg(), View()))
    {
      match state {
        case Initial => v := ParseInitial();
        case Entry =>
          file := blank;
          state := Headers;
          v := More;
        case Headers => v := ParseHeaders();
        case Body => v := ParseBody();
        case Boundary => v := ParseBoundary();
      }
    }

    /** Feeds one fragment. */
    method Parse(data: string) returns (ok: bool)
      requires Valid()
      modifies this, buf
      ensures Valid() && Cfg() == old(Cfg()) && (buf == old(buf) || fresh(buf))
      ensures (View(), ok) == old(Multipart.Parse(Cfg(), View(), data))
    {
      BufAppend(data);
      ghost var goal := Run(Cfg(), View());
      while epos - spos > 0
        invariant Valid() && Cfg() == old(Cfg()) && (buf == old(buf) || fresh(buf))
        invariant goal == Run(Cfg(), View())
        decreases epos - spos, if state.Entry? then 1 else 0
      {
        var v := Turn();
        if v.Stop? {
          return v.ret;
        }
      }
      ok := true;
    }

    /** The receiving loop: fragments as they arrive, until one is refused. */
    method ParseAll(frags: seq<string>) returns (ok: bool)
      requires Valid()
      modifies this, buf
      ensures Valid() && Cfg() == old(Cfg()) && (buf == old(buf) || fresh(buf))
      ensures (View(), ok) == old(Feed(Cfg(), View(), frags))
    {
      ok := true;
      for i := 0 to |frags|
        invariant Valid() && Cfg() == old(Cfg()) && (buf == old(buf) || fresh(buf))
        invariant Feed(Cfg(), View(), frags[i..]) == old(Feed(Cfg(), View(), frags))
      {
        assert frags[i..][1..] == frags[i + 1..];
        ok := Parse(frags[i]);
        if !ok {
          return;
        }
      }
      ok := true;
    }
  }
}
