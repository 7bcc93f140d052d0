/** libcoap's printer for `/.well-known/core` (resource.c): the link format of section 2 of RFC 6690,
    written through a window of a given offset and size. */
module LinkFormat {
  import opened Arithmetic
  import opened LinkText
  import opened Wrappers

  // ----- windows -----

  /** What a buffer of `n` characters shows of `text` from `offset` on. */
  function Window<T>(text: seq<T>, offset: nat, n: nat): seq<T> {
    text[Min(offset, |text|)..Min(offset + n, |text|)]
  }

  /** The characters still to be skipped after `len` of them; a buffer without room skips none. */
  function Remaining(offset: nat, n: nat, len: nat): nat {
    if n == 0 then offset else offset - Min(offset, len)
  }

  lemma WindowAt<T>(text: seq<T>, offset: nat, n: nat)
    ensures var w := Window(text, offset, n);
            |w| == Min(offset + n, |text|) - Min(offset, |text|) <= n &&
            forall i :: 0 <= i < |w| ==> w[i] == text[offset + i]
  {
  }

  /** Printing in two steps: the second one continues with the room and the offset that are left. */
  lemma WindowAppend(t: string, u: string, offset: nat, n: nat)
    ensures |Window(t, offset, n)| <= n
    ensures var left, skip := n - |Window(t, offset, n)|, Remaining(offset, n, |t|);
            Window(t + u, offset, n) == Window(t, offset, n) + Window(u, skip, left) &&
            Remaining(offset, n, |t + u|) == Remaining(skip, left, |u|)
  {
    hide Window;
    var left, skip := n - |Window(t, offset, n)|, Remaining(offset, n, |t|);
    WindowAt(t, offset, n);
    WindowAt(u, skip, left);
    WindowAt(t + u, offset, n);
    var a, b, c := Window(t + u, offset, n), Window(t, offset, n), Window(u, skip, left);
    assert |a| == |b| + |c|;
    forall i | 0 <= i < |a|
      ensures a[i] == (b + c)[i]
    {
      if i < |b| {
        assert b[i] == t[offset + i] == (t + u)[offset + i];
      } else {
        assert c[i - |b|] == u[skip + (i - |b|)] == (t + u)[|t| + skip + (i - |b|)];
      }
    }
  }

  // ----- the printer -----

  /** The variables of `PRINT_COND_WITH_OFFSET` and `COPY_COND_WITH_OFFSET`; `text` is everything that
      has been printed, visible or not. */
  class Printer {
    const buf: array<char>
    const start: nat
    const end: nat
    const offset0: nat
    var p: nat
    var offset: nat
    var written: nat
    ghost var text: string

    ghost predicate Valid()
      reads this, buf
    {
      start <= p <= end <= buf.Length && written == |text| && offset == Remaining(offset0, end - start, |text|) &&
      buf[start..p] == Window(text, offset0, end - start)
    }

    constructor (buf: array<char>, start: nat, end: nat, offset: nat)
      requires start <= end <= buf.Length
      ensures Valid() && this.buf == buf && this.start == start && this.end == end && offset0 == offset && text == ""
      ensures p == start && this.offset == offset
    {
      this.buf, this.start, this.end, this.offset0 := buf, start, end, offset;
      p, this.offset, written, text := start, offset, 0, "";
    }

    method Store(c: char)
      requires start <= p < end <= buf.Length
      modifies this`p, buf
      ensures p == old(p) + 1 && buf[start..p] == old(buf[start..p]) + [c]
      ensures buf[..start] == old(buf[..start]) && buf[end..] == old(buf[end..])
    {
      buf[p] := c;
      p := p + 1;
    }

    /** `PRINT_COND_WITH_OFFSET` */
    method Put(c: char)
      requires Valid()
      modifies this, buf
      ensures Valid() && text == old(text) + [c]
      ensures buf[..start] == old(buf[..start]) && buf[end..] == old(buf[end..])
    {
      hide Window, Remaining;
      WindowAppend(text, [c], offset0, end - start);
      PutWindow(c, offset, end - p);
      if p < end {
        if offset == 0 {
          Store(c);
        } else {
          offset := offset - 1;
        }
      }
      written := written + 1;
      text := text + [c];
    }

    /** `COPY_COND_WITH_OFFSET` */
    method Copy(s: string)
      requires Valid()
      modifies this, buf
      ensures Valid() && text == old(text) + s
      ensures buf[..start] == old(buf[..start]) && buf[end..] == old(buf[end..])
    {
      ghost var before := text;
      for i := 0 to |s|
        invariant Valid() && text == before + s[..i]
        invariant buf[..start] == old(buf[..start]) && buf[end..] == old(buf[end..])
      {
        hide Window, Remaining;
        Put(s[i]);
        assert s[..i + 1] == s[..i] + [s[i]];
      }
      assert s[..|s|] == s;
    }
  }

  lemma PutWindow(c: char, skip: nat, left: nat)
    ensures Window([c], skip, left) == if left > 0 && skip == 0 then [c] else []
    ensures Remaining(skip, left, 1) == if left > 0 && skip > 0 then skip - 1 else skip
  {
  }

  // ----- one link -----

  /** The lower 28 bits of a print status, and its TRUNC bit. */
  datatype Status = Status(length: nat, truncated: bool)

  const MAX_LENGTH: nat := 0x1000_0000

  lemma {:induction false} AttributesPrefix(attributes: seq<Attribute>, i: nat)
    requires i < |attributes|
    ensures AttributesText(attributes[..i + 1]) == AttributesText(attributes[..i]) + AttributeText(attributes[i])
  {
    assert attributes[..i + 1][..i] == attributes[..i];
  }

  method PrintAttribute(w: Printer, a: Attribute)
    requires w.Valid()
    modifies w, w.buf
    ensures w.Valid() && w.text == old(w.text) + AttributeText(a)
    ensures w.buf[..w.start] == old(w.buf[..w.start]) && w.buf[w.end..] == old(w.buf[w.end..])
  {
    w.Put(';');
    w.Copy(a.name);
    if a.value.Some? {
      w.Put('=');
      w.Copy(a.value.value);
    }
  }

  method PrintAttributes(w: Printer, attributes: seq<Attribute>)
    requires w.Valid()
    modifies w, w.buf
    ensures w.Valid() && w.text == old(w.text) + AttributesText(attributes)
    ensures w.buf[..w.start] == old(w.buf[..w.start]) && w.buf[w.end..] == old(w.buf[w.end..])
  {
    ghost var text := w.text;
    for i := 0 to |attributes|
      invariant w.Valid() && w.text == text + AttributesText(attributes[..i])
      invariant w.buf[..w.start] == old(w.buf[..w.start]) && w.buf[w.end..] == old(w.buf[w.end..])
    {
      hide AttributeText;
      AttributesPrefix(attributes, i);
      PrintAttribute(w, attributes[i]);
    }
    assert attributes[..|attributes|] == attributes;
  }

  method PrintHead(w: Printer, uri: string)
    requires w.Valid()
    modifies w, w.buf
    ensures w.Valid() && w.text == old(w.text) + ("</" + uri + ">")
    ensures w.buf[..w.start] == old(w.buf[..w.start]) && w.buf[w.end..] == old(w.buf[w.end..])
  {
    w.Put('<');
    w.Put('/');
    w.Copy(uri);
    w.Put('>');
  }

  method PrintParts(w: Printer, r: Resource)
    requires w.Valid()
    modifies w, w.buf
    ensures w.Valid() && w.text == old(w.text) + Link(r)
    ensures w.buf[..w.start] == old(w.buf[..w.start]) && w.buf[w.end..] == old(w.buf[w.end..])
  {
    hide Window, Remaining, AttributesText;
    ghost var text := w.text;
    PrintHead(w, r.uri);
    PrintAttributes(w, r.attributes);
    if r.observable { w.Copy(";obs"); }
    assert w.text == text + Link(r);
  }

  /** The test that sets the TRUNC bit, from the characters stored and the part of the offset used. */
  lemma TruncIffMore(text: string, offset: nat, n: nat)
    ensures var stored, used := |Window(text, offset, n)|, offset - Remaining(offset, n, |text|);
            stored <= n && (stored + used < |text| <==> if n > 0 then offset + n < |text| else text != "")
  {
  }

  lemma WholeWindow(text: string, offset: nat, n: nat)
    ensures offset == 0 && |text| <= n ==> Window(text, offset, n) == text
  {
  }

  /** `coap_print_link` into `buf[at..at + len]`: the link is counted completely, but only its window
      is stored.  `offset'` is what is left of the offset.  If it is stored completely, it reads as the
      resource iff that is readable. */
  method PrintLink(r: Resource, buf: array<char>, at: nat, len: nat, offset: nat)
    returns (status: Status, total: nat, offset': nat)
    requires at + len <= buf.Length && len < MAX_LENGTH
    modifies buf
    ensures total == |Link(r)| && offset' == Remaining(offset, len, total)
    ensures status.length == |Window(Link(r), offset, len)| <= len
    ensures status.truncated <==> if len > 0 then offset + len < total else total > 0
    ensures buf[at..at + status.length] == Window(Link(r), offset, len)
    ensures buf[..at] == old(buf[..at]) && buf[at + len..] == old(buf[at + len..])
    ensures offset == 0 && total <= len ==>
              status.length == total && (ReadLinks(buf[at..at + total]) == Some([r]) <==> Readable(r))
  {
    OneReadBack(r);
    WholeWindow(Link(r), offset, len);
    hide Window, Remaining, Link, ReadLinks, Readable;
    var w := new Printer(buf, at, at + len, offset);
    PrintParts(w, r);
    assert w.text == Link(r);
    TruncIffMore(Link(r), offset, len);
    total, offset' := w.written, w.offset;
    assert |buf[at..w.p]| == w.p - at;
    status := Status(w.p - at, w.p - at + offset - w.offset < w.written);
  }

  // ----- the whole list -----

  lemma Kept(front: string, now: string, start: nat, p: nat, n: nat)
    requires start <= p == |front| && p + n <= |now| && now[..p] == front
    ensures now[..start] == front[..start] && now[start..p] == front[start..]
    ensures now[start..p + n] == front[start..] + now[p..p + n]
  {
    assert now[..start] == now[..p][..start] && now[start..p] == now[..p][start..];
  }

  /** Prints a link behind what the printer has printed, as the loop of `print_wellknown` does. */
  method IncludeLink(w: Printer, r: Resource)
    requires w.Valid() && w.end - w.start < MAX_LENGTH
    modifies w, w.buf
    ensures w.Valid() && w.text == old(w.text) + Link(r)
    ensures w.buf[..w.start] == old(w.buf[..w.start]) && w.buf[w.end..] == old(w.buf[w.end..])
  {
    hide Window, Remaining, Link;
    ghost var shown, front := w.buf[w.start..w.p], w.buf[..w.p];
    Kept(front, w.buf[..], w.start, w.p, 0);
    WindowAppend(w.text, Link(r), w.offset0, w.end - w.start);
    assert |shown| == w.p - w.start;
    var status, total, offset := PrintLink(r, w.buf, w.p, w.end - w.p, w.offset);
    Kept(front, w.buf[..], w.start, w.p, status.length);
    w.p := w.p + status.length;
    w.written := w.written + total;
    w.offset := offset;
    w.text := w.text + Link(r);
  }

  lemma LinksNext(rs: seq<Resource>, matches: Resource -> bool, i: nat)
    requires i < |rs|
    ensures AnyMatch(rs[..i + 1], matches) <==> AnyMatch(rs[..i], matches) || matches(rs[i])
    ensures Links(rs[..i + 1], matches) ==
              if !matches(rs[i]) then Links(rs[..i], matches)
              else Links(rs[..i], matches) + ((if AnyMatch(rs[..i], matches) then "," else "") + Link(rs[i]))
  {
    assert rs[..i + 1][..i] == rs[..i];
    hide Link;
    if AnyMatch(rs[..i], matches) {
      var k :| 0 <= k < i && matches(rs[..i][k]);
      assert rs[..i + 1][k] == rs[..i][k];
    }
    if matches(rs[i]) { assert rs[..i + 1][i] == rs[i]; }
    if AnyMatch(rs[..i + 1], matches) {
      var k :| 0 <= k < i + 1 && matches(rs[..i + 1][k]);
      if k < i { assert rs[..i][k] == rs[..i + 1][k]; }
    }
  }

  method PrintLinks(w: Printer, rs: seq<Resource>, matches: Resource -> bool)
    requires w.Valid() && w.end - w.start < MAX_LENGTH
    modifies w, w.buf
    ensures w.Valid() && w.text == old(w.text) + Links(rs, matches)
    ensures w.buf[..w.start] == old(w.buf[..w.start]) && w.buf[w.end..] == old(w.buf[w.end..])
  {
    ghost var text, head, tail := w.text, w.buf[..w.start], w.buf[w.end..];
    var subsequent := false;
    LinksNone(matches);
    LinksBehind(text, "", rs, matches, 0);
    hide *;
    for i := 0 to |rs|
      invariant Printed(w, text, rs, matches, i, subsequent, head, tail)
    {
      subsequent := PrintNext(w, text, rs, matches, i, subsequent, head, tail);
    }
    PrintedSays(w, text, rs, matches, |rs|, subsequent, head, tail);
    LinksBehind(text, "", rs, matches, |rs|);
  }

  /** The links of `rs[..i]` are printed, and nothing outside the window has changed. */
  ghost predicate Printed(w: Printer, text: string, rs: seq<Resource>, matches: Resource -> bool, i: nat,
                          subsequent: bool, head: string, tail: string)
    reads w, w.buf
  {
    i <= |rs| && w.Valid() && w.end - w.start < MAX_LENGTH && w.text == Behind(text, rs[..i], matches) &&
    (subsequent <==> AnyMatch(rs[..i], matches)) && w.buf[..w.start] == head && w.buf[w.end..] == tail
  }

  lemma PrintedSays(w: Printer, text: string, rs: seq<Resource>, matches: Resource -> bool, i: nat,
                    subsequent: bool, head: string, tail: string)
    ensures Printed(w, text, rs, matches, i, subsequent, head, tail) <==>
              i <= |rs| && w.Valid() && w.end - w.start < MAX_LENGTH && w.text == Behind(text, rs[..i], matches) &&
              (subsequent <==> AnyMatch(rs[..i], matches)) && w.buf[..w.start] == head && w.buf[w.end..] == tail
  {
  }

  /** One turn of the loop. */
  method PrintNext(w: Printer, ghost text: string, rs: seq<Resource>, matches: Resource -> bool, i: nat,
                   subsequent: bool, ghost head: string, ghost tail: string) returns (more: bool)
    requires i < |rs| && Printed(w, text, rs, matches, i, subsequent, head, tail)
    modifies w, w.buf
    ensures Printed(w, text, rs, matches, i + 1, more, head, tail)
  {
    hide *;
    PrintedSays(w, text, rs, matches, i, subsequent, head, tail);
    LinksNext(rs, matches, i);
    more := subsequent;
    if matches(rs[i]) {
      LinksBehind(text, (if subsequent then "," else "") + Link(rs[i]), rs, matches, i);
      PrintItem(w, rs[i], subsequent);
      more := true;
    } else {
      LinksBehind(text, "", rs, matches, i);
    }
    PrintedSays(w, text, rs, matches, i + 1, more, head, tail);
  }

  /** `text` and the links behind it. */
  ghost function Behind(text: string, rs: seq<Resource>, matches: Resource -> bool): string {
    text + Links(rs, matches)
  }

  lemma LinksBehind(text: string, item: string, rs: seq<Resource>, matches: Resource -> bool, i: nat)
    requires i <= |rs|
    ensures i == 0 ==> Behind(text, rs[..i], matches) == text
    ensures i < |rs| && Links(rs[..i + 1], matches) == Links(rs[..i], matches) + item ==>
              Behind(text, rs[..i + 1], matches) == Behind(text, rs[..i], matches) + item
    ensures i < |rs| && Links(rs[..i + 1], matches) == Links(rs[..i], matches) ==>
              Behind(text, rs[..i + 1], matches) == Behind(text, rs[..i], matches)
    ensures i == |rs| ==> Behind(text, rs[..i], matches) == text + Links(rs, matches)
  {
    hide Links;
    LinksNone(matches);
    var before := Links(rs[..i], matches);
    assert text + (before + item) == text + before + item && text + "" == text;
    if i == |rs| { assert rs[..i] == rs; }
  }

  /** A link, behind a comma if it is not the first one. */
  method PrintItem(w: Printer, r: Resource, subsequent: bool)
    requires w.Valid() && w.end - w.start < MAX_LENGTH
    modifies w, w.buf
    ensures w.Valid() && w.text == old(w.text) + ((if subsequent then "," else "") + Link(r))
    ensures w.buf[..w.start] == old(w.buf[..w.start]) && w.buf[w.end..] == old(w.buf[w.end..])
  {
    hide Window, Remaining, Link;
    ghost var text := w.text;
    if subsequent { w.Put(','); }
    IncludeLink(w, r);
    assert w.text == text + ((if subsequent then "," else "") + Link(r));
  }

  lemma LinksNone(matches: Resource -> bool)
    ensures Links([], matches) == "" && !AnyMatch([], matches)
  {
  }

  /** `print_wellknown` into a buffer of `n` characters: the window of the complete text, its total
      length, and whether something is missing behind the window.  The complete text reads as the resources
      that match iff all of them are readable. */
  method PrintWellknown(rs: seq<Resource>, matches: Resource -> bool, buf: array<char>, n: nat, offset: nat)
    returns (status: Status, total: nat)
    requires n <= buf.Length && n < MAX_LENGTH
    modifies buf
    ensures total == |Links(rs, matches)| && status.length == |Window(Links(rs, matches), offset, n)| <= n
    ensures buf[..status.length] == Window(Links(rs, matches), offset, n)
    ensures buf[n..] == old(buf[n..])
    ensures status.truncated <==> if n > 0 then offset + n < total else total > 0
    ensures offset == 0 && total <= n ==>
              status.length == total &&
              (ReadLinks(buf[..total]) == Some(Matching(rs, matches)) <==>
                 forall r <- Matching(rs, matches) :: Readable(r))
  {
    TextReadBack(rs, matches);
    WholeWindow(Links(rs, matches), offset, n);
    hide Window, Remaining, Links, ReadLinks, Matching, Readable;
    var w := new Printer(buf, 0, n, offset);
    PrintLinks(w, rs, matches);
    assert w.text == Links(rs, matches);
    TruncIffMore(Links(rs, matches), offset, n);
    total := w.written;
    assert |buf[0..w.p]| == w.p && buf[0..w.p] == buf[..w.p];
    status := Status(w.p, w.p + offset - w.offset < w.written);
  }

  /** `get_wkc_len`: printing into no room at all still measures the text. */
  method WellknownLength(rs: seq<Resource>, matches: Resource -> bool) returns (total: nat)
    ensures total == |Links(rs, matches)|
  {
    var buf, status := new char[1], Status(0, false);
    status, total := PrintWellknown(rs, matches, buf, 0, 0xFFFF_FFFF);
  }

  // ----- windows make up the text -----

  /** Windows that follow each other are one larger window. */
  lemma WindowsJoin<T>(text: seq<T>, offset: nat, m: nat, n: nat)
    ensures Window(text, offset, m) + Window(text, offset + m, n) == Window(text, offset, m + n)
  {
    hide Window;
    WindowAt(text, offset, m);
    WindowAt(text, offset + m, n);
    WindowAt(text, offset, m + n);
  }

  /** The pages from `offset` on, while the TRUNC bit is set; page `i` has a buffer of `sizes(i)`
      characters. */
  function Pages(text: string, offset: nat, sizes: nat -> nat, i: nat): seq<string>
    requires forall k :: sizes(k) > 0
    decreases |text| - offset
  {
    [Window(text, offset, sizes(i))] +
    if offset + sizes(i) < |text| then Pages(text, offset + sizes(i), sizes, i + 1) else []
  }

  function Join(pages: seq<string>): string {
    if pages == [] then "" else pages[0] + Join(pages[1..])
  }

  lemma WindowToEnd<T>(text: seq<T>, offset: nat, n: nat)
    requires offset <= |text| <= offset + n
    ensures Window(text, offset, n) == text[offset..]
  {
  }

  /** Paging through the text gives all of it, whatever the sizes of the buffers are. */
  lemma {:induction false} PagesJoin(text: string, offset: nat, sizes: nat -> nat, i: nat)
    requires (forall k :: sizes(k) > 0) && offset <= |text|
    ensures Join(Pages(text, offset, sizes, i)) == text[offset..]
    decreases |text| - offset
  {
    hide Window;
    var ps, n := Pages(text, offset, sizes, i), sizes(i);
    if offset + n < |text| {
      PagesJoin(text, offset + n, sizes, i + 1);
      assert ps[1..] == Pages(text, offset + n, sizes, i + 1);
      WindowsJoin(text, offset, n, |text|);
      WindowToEnd(text, offset + n, |text|);
      WindowToEnd(text, offset, n + |text|);
    } else {
      assert ps[1..] == [] && ps[0] + "" == ps[0];
      WindowToEnd(text, offset, n);
    }
  }
}
