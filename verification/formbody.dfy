/** Form parts and form bodies as the objects a client sends (webcc/common.cc, webcc/body.cc, webcc/client.cc). */
module FormBodies {
  import opened Text
  import opened Headers
  import opened Parsing
  import opened Form
  import opened Requests

  /** The readable files and their contents, which do not change while a request is sent. */
  type Files = m: map<string, string> | "" !in m witness map[]

  class FormPart {
    const name: string
    const path: string
    const fileName: string
    const mediaType: string
    var headers: seq<Header>
    var data: string

    /** The headers, once generated, are those of the part. */
    ghost predicate Valid()
      reads this
    {
      headers == [] || headers == ItemHeaders(Item(name, fileName, mediaType, ""))
    }

    /** What Prepare makes of data `d`: without data, the contents of the file. */
    ghost function Loaded(files: Files, d: string): string {
      if d == "" && path in files then files[path] else d
    }

    /** Prepare does not fail when the data is `d`. */
    ghost predicate Loadable(files: Files, d: string) {
      d == "" && path != "" ==> path in files
    }

    ghost function Content(files: Files): string
      reads this
    {
      Loaded(files, data)
    }

    ghost function ItemWith(d: string): Item {
      Item(name, fileName, mediaType, d)
    }

    ghost function AsItem(files: Files): Item
      reads this
    {
      ItemWith(Content(files))
    }

    /** FormPart::New. */
    constructor (name: string, data: string, mediaType: string)
      ensures this.name == name && this.mediaType == mediaType && path == fileName == "" && this.data == data && Valid()
    {
      this.name, this.path, this.fileName, this.mediaType := name, "", "", mediaType;
      this.headers, this.data := [], data;
    }

    /** FormPart::NewFile, given the file name and media type found out from the path. */
    constructor File(name: string, path: string, fileName: string, mediaType: string)
      ensures this.name == name && this.path == path && this.fileName == fileName && this.mediaType == mediaType
      ensures data == "" && Valid()
    {
      this.name, this.path, this.fileName, this.mediaType := name, path, fileName, mediaType;
      headers, data := [], "";
    }

    method SetHeaders()
      requires headers == []
      modifies `headers
      ensures headers == ItemHeaders(Item(name, fileName, mediaType, ""))
    {
      hide IEquals, FindKey;
      var disposition := "form-data";
      if name != "" {
        disposition := disposition + ("; name=\"" + name + "\"");
      }
      if fileName != "" {
        disposition := disposition + ("; filename=\"" + fileName + "\"");
      }
      DispositionText(name, fileName);
      assert disposition == FormatDisposition(name, fileName);
      assert disposition[0] == 'f';
      NotThere(Header(CONTENT_DISPOSITION, disposition));
      headers := AfterSet(headers, CONTENT_DISPOSITION, disposition);
      if mediaType != "" {
        TypeNotThere(disposition, mediaType);
        headers := AfterSet(headers, CONTENT_TYPE, mediaType);
      }
      assert headers == ItemHeaders(Item(name, fileName, mediaType, ""));
    }

    /** The first step of Prepare: a file is read unless its contents are still loaded. */
    method Load(files: Files) returns (ok: bool)
      modifies `data
      ensures ok == (old(data) == "" && path != "" ==> path in files)
      ensures data == if ok then old(Content(files)) else old(data)
    {
      if data == "" && path != "" {
        if path !in files {
          return false;
        }
        data := files[path];
      }
      ok := true;
    }

    /** Prepare appends to the payload; it fails with kFileError if the file cannot be read. */
    method Prepare(files: Files, before: seq<string>) returns (ok: bool, payload: seq<string>)
      requires Valid()
      modifies this
      ensures Valid()
      ensures ok == (old(data) == "" && path != "" ==> path in files)
      ensures data == if ok then old(Content(files)) else old(data)
      ensures ok ==> Concat(payload) == Concat(before) + ItemBytes(old(AsItem(files)))
      ensures ok ==> |payload| > |before|
    {
      payload := before;
      ok := Load(files);
      if !ok {
        return;
      }
      if headers == [] {
        SetHeaders();
      }
      payload := AddHeaders(payload, headers);
      payload := AddData(payload, data);
      ItemBytesAre(Item(name, fileName, mediaType, data), Concat(before));
    }

    method Free()
      modifies `data
      ensures data == ""
    {
      data := "";
    }

    /** GetSize: the size of everything Prepare adds. It fails with kFileError for a part that has neither data
        nor a readable file. */
    method GetSize(files: Files) returns (ok: bool, size: nat)
      requires Valid()
      modifies `headers
      ensures Valid()
      ensures ok == (data != "" || path in files)
      ensures ok ==> size == |ItemBytes(AsItem(files))|
    {
      if headers == [] {
        SetHeaders();
      }
      size := HeadersSize(headers);
      size := size + 2;
      var n;
      ok, n := GetDataSize(files);
      if !ok {
        return;
      }
      ItemBytesAre(Item(name, fileName, mediaType, Content(files)), "");
      size := size + n + 2;
    }

    method GetDataSize(files: Files) returns (ok: bool, size: nat)
      ensures ok == (data != "" || path in files)
      ensures ok ==> size == |Content(files)|
    {
      if data != "" {
        return true, |data|;
      }
      if path !in files {
        return false, 0;
      }
      ok, size := true, |files[path]|;
    }
  }

  lemma TypeNotThere(disposition: string, mediaType: string)
    requires mediaType != ""
    ensures AfterSet([Header(CONTENT_DISPOSITION, disposition)], CONTENT_TYPE, mediaType)
            == [Header(CONTENT_DISPOSITION, disposition), Header(CONTENT_TYPE, mediaType)]
  {
    KeysDiffer();
  }

  lemma ItemBytesAre(p: Item, before: string)
    ensures before + HeaderBytes(ItemHeaders(p)) + CRLF + p.data + CRLF == before + ItemBytes(p)
    ensures ItemHeaders(p) == ItemHeaders(p.(data := ""))
    ensures |ItemBytes(p)| == |HeaderBytes(ItemHeaders(p))| + 2 + |p.data| + 2
  {
  }

  lemma NotThere(h: Header)
    ensures AfterSet([], h.key, h.value) == if h.value == "" then [] else [h]
  {
  }

  /** The first loop of Prepare: the buffers of the header lines. */
  method AddHeaders(before: seq<string>, hs: seq<Header>) returns (payload: seq<string>)
    ensures Concat(payload) == Concat(before) + HeaderBytes(hs) && |payload| >= |before|
  {
    payload := before;
    var i := 0;
    while i < |hs|
      invariant i <= |hs| && |payload| >= |before|
      invariant Concat(payload) == Concat(before) + HeaderBytes(hs[..i])
    {
      var h := hs[i];
      ConcatFour(payload, h);
      HeaderBytesAppend(hs[..i], h);
      assert hs[..i + 1] == hs[..i] + [h];
      OneMoreLine(Concat(before), HeaderBytes(hs[..i]), HeaderLine(h));
      payload := payload + [h.key] + [": "] + [h.value] + [CRLF];
      i := i + 1;
    }
    assert hs[..i] == hs;
  }

  /** The loop of GetSize. */
  method HeadersSize(hs: seq<Header>) returns (size: nat)
    ensures size == |HeaderBytes(hs)|
  {
    size := 0;
    var i := 0;
    while i < |hs|
      invariant i <= |hs| && size == |HeaderBytes(hs[..i])|
    {
      HeaderBytesAppend(hs[..i], hs[i]);
      assert hs[..i + 1] == hs[..i] + [hs[i]];
      size := size + |hs[i].key| + 2 + |hs[i].value| + 2;
      i := i + 1;
    }
    assert hs[..i] == hs;
  }

  /** The buffers after the headers. */
  method AddData(payload: seq<string>, data: string) returns (r: seq<string>)
    ensures Concat(r) == Concat(payload) + CRLF + data + CRLF && |r| > |payload|
  {
    ConcatMore(payload, CRLF);
    r := payload + [CRLF];
    if data != "" {
      ConcatMore(r, data);
      r := r + [data];
    } else {
      assert Concat(payload) + CRLF + "" == Concat(payload) + CRLF;
    }
    ConcatMore(r, CRLF);
    r := r + [CRLF];
  }

  // ---------------------------------------------------------------- string bodies

  class StringBody {
    const data: string
    var index: nat

    constructor (data: string)
      ensures this.data == data && index == 0
    {
      this.data, index := data, 0;
    }

    method GetSize() returns (size: nat)
      ensures size == |data|
    {
      size := |data|;
    }

    method InitPayload()
      modifies this
      ensures index == 0
    {
      index := 0;
    }

    method NextPayload() returns (payload: seq<string>)
      modifies this
      ensures if old(index) == 0 then index == 1 && payload == [data] else index == old(index) && payload == []
    {
      payload := [];
      if index == 0 {
        index := 1;
        payload := [data];
      }
    }

    /** The client's loop over the payloads; an empty string is a payload too. */
    method WriteAll() returns (out: string, calls: nat)
      modifies this
      ensures out == data && calls == 2
    {
      InitPayload();
      out := "";
      var payload := NextPayload();
      calls := 1;
      while payload != []
        invariant 0 < calls <= 2 && index == 1
        invariant if calls == 1 then out == "" && payload == [data] else out == data && payload == []
        decreases 2 - calls
      {
        OnePiece(data);
        out := out + Concat(payload);
        payload := NextPayload();
        calls := calls + 1;
      }
    }
  }

  // ---------------------------------------------------------------- form bodies

  ghost function ItemsOf(parts: seq<FormPart>, files: Files): seq<Item>
    reads parts
  {
    if parts == [] then [] else [parts[0].AsItem(files)] + ItemsOf(parts[1..], files)
  }

  lemma {:induction false} ItemAt(parts: seq<FormPart>, files: Files, k: nat)
    requires k < |parts|
    ensures |ItemsOf(parts, files)| == |parts| && ItemsOf(parts, files)[k] == parts[k].AsItem(files)
  {
    if k > 0 {
      ItemAt(parts[1..], files, k - 1);
    } else if |parts| > 1 {
      ItemAt(parts[1..], files, 0);
    }
  }

  /** The bytes of one payload: the boundary line and the part, and the end boundary after the last part. */
  function Piece(boundary: string, item: Item, last: bool): string {
    BoundaryText(boundary) + CRLF + ItemBytes(item) + (if last then EndText(boundary) + CRLF else "")
  }

  lemma PieceAdds(boundary: string, item: Item, last: bool)
    ensures Concat([]) == ""
    ensures var front := "" + BoundaryText(boundary) + CRLF + ItemBytes(item);
            Piece(boundary, item, last) == if last then front + EndText(boundary) + CRLF else front
    ensures |Piece(boundary, item, last)| == |boundary| + 4 + |ItemBytes(item)| + if last then |boundary| + 6 else 0
  {
    hide ItemBytes;
    assert "" + BoundaryText(boundary) == BoundaryText(boundary);
  }

  function PiecesFrom(boundary: string, items: seq<Item>, k: nat): string
    decreases |items| - k
  {
    if k >= |items| then "" else Piece(boundary, items[k], k + 1 == |items|) + PiecesFrom(boundary, items, k + 1)
  }

  /** The payloads together are the form. */
  lemma {:induction false} PiecesAreForm(boundary: string, items: seq<Item>, k: nat)
    requires k < |items|
    ensures PiecesFrom(boundary, items, k) == BoundaryText(boundary) + CRLF + ItemsBytes(boundary, items[k..])
    decreases |items| - k
  {
    var b := BoundaryText(boundary) + CRLF;
    var p := ItemBytes(items[k]);
    var e := EndText(boundary) + CRLF;
    assert items[k..][0] == items[k] && items[k..][1..] == items[k + 1..];
    if k + 1 == |items| {
      assert PiecesFrom(boundary, items, k + 1) == "";
      assert b + p + e + "" == b + (p + e);
    } else {
      PiecesAreForm(boundary, items, k + 1);
      var more := b + ItemsBytes(boundary, items[k + 1..]);
      assert b + p + "" + more == b + (p + more);
    }
  }

  class FormBody {
    const parts: seq<FormPart>
    const boundary: string
    var index: nat

    /** The same part may stand at several positions. */
    ghost predicate Valid()
      reads parts
    {
      forall i :: 0 <= i < |parts| ==> parts[i].Valid()
    }

    constructor (parts: seq<FormPart>, boundary: string)
      requires forall i :: 0 <= i < |parts| ==> parts[i].Valid()
      ensures Valid() && this.parts == parts && this.boundary == boundary && index == 0
    {
      this.parts, this.boundary, index := parts, boundary, 0;
    }

    /** The body as a message holds it. */
    function Held(): Body
      reads parts
    {
      FormContent(seq(|parts|, i requires 0 <= i < |parts| reads parts =>
                        Part(parts[i].name, parts[i].fileName, parts[i].data)),
                  boundary)
    }

    method InitPayload()
      modifies `index
      ensures index == 0
    {
      index := 0;
    }

    method AddBoundary(payload: seq<string>) returns (r: seq<string>)
      ensures Concat(r) == Concat(payload) + BoundaryText(boundary) + CRLF && |r| > |payload|
    {
      ConcatMore(payload, "--");
      ConcatMore(payload + ["--"], boundary);
      ConcatMore(payload + ["--"] + [boundary], CRLF);
      r := payload + ["--"] + [boundary] + [CRLF];
      assert Concat(payload) + "--" + boundary + CRLF == Concat(payload) + ("--" + boundary) + CRLF;
    }

    method AddBoundaryEnd(payload: seq<string>) returns (r: seq<string>)
      ensures Concat(r) == Concat(payload) + EndText(boundary) + CRLF && |r| > |payload|
    {
      ConcatMore(payload, "--");
      ConcatMore(payload + ["--"], boundary);
      ConcatMore(payload + ["--"] + [boundary], "--");
      ConcatMore(payload + ["--"] + [boundary] + ["--"], CRLF);
      r := payload + ["--"] + [boundary] + ["--"] + [CRLF];
      assert Concat(payload) + "--" + boundary + "--" + CRLF == Concat(payload) + ("--" + boundary + "--") + CRLF;
    }

    /** FormBody::Free: nothing for an index past the end. */
    method Free(i: nat)
      requires Valid()
      modifies parts
      ensures Valid()
      ensures forall j :: 0 <= j < |parts| ==>
                parts[j].data == if i < |parts| && parts[j] == parts[i] then "" else old(parts[j].data)
      ensures forall j :: 0 <= j < |parts| ==> parts[j].headers == old(parts[j].headers)
    {
      if i < |parts| {
        parts[i].Free();
      }
    }

    /** In `data`, no file part but the one before position `i` is loaded. */
    ghost predicate LoadedBefore(data: seq<string>, i: nat)
      requires |data| == |parts|
    {
      forall j :: 0 <= j < |parts| && parts[j].path != "" && data[j] != "" ==>
                    0 < i <= |parts| && parts[j] == parts[i - 1]
    }

    ghost function LoadedFiles(): set<FormPart>
      reads parts
    {
      set p | p in parts && p.path != "" && p.data != ""
    }

    lemma FewLoaded(i: nat)
      requires LoadedBefore(Data(), i)
      ensures |LoadedFiles()| <= 1
    {
      var s := LoadedFiles();
      assert forall p :: p in parts ==> exists j :: 0 <= j < |parts| && parts[j] == p;
      if 0 < i <= |parts| {
        assert s == {} || s == {parts[i - 1]};
      } else {
        assert s == {};
      }
    }

    /** The data of the parts, given what it was, once a call of NextPayload at position `k` has freed the part
        before. */
    ghost function Freed(data: seq<string>, free: bool, k: nat): (r: seq<string>)
      requires |data| == |parts|
      ensures |r| == |parts|
    {
      seq(|parts|, j requires 0 <= j < |parts| =>
            if free && 0 < k <= |parts| && parts[j] == parts[k - 1] then "" else data[j])
    }

    /** And once the part at position `k` has been prepared. */
    ghost function PreparedAt(files: Files, data: seq<string>, k: nat): (r: seq<string>)
      requires k < |parts| == |data|
      ensures |r| == |parts|
    {
      seq(|parts|, j requires 0 <= j < |parts| =>
            if parts[j] == parts[k] then parts[j].Loaded(files, data[j]) else data[j])
    }

    /** A whole call at position `k`. */
    ghost function Moved(files: Files, data: seq<string>, free: bool, k: nat): (r: seq<string>)
      requires |data| == |parts|
      ensures |r| == |parts|
    {
      if k < |parts| then PreparedAt(files, Freed(data, free, k), k) else Freed(data, free, k)
    }

    lemma MovedIs(files: Files, data: seq<string>, free: bool, k: nat)
      requires |data| == |parts|
      ensures Moved(files, data, free, k)
              == if k < |parts| then PreparedAt(files, Freed(data, free, k), k) else Freed(data, free, k)
    {
    }

    lemma NothingFreed(data: seq<string>, free: bool, k: nat)
      requires |data| == |parts| && (!free || k == 0)
      ensures Freed(data, free, k) == data
    {
    }

    lemma OneLoaded(files: Files, data: seq<string>, k: nat)
      requires |data| == |parts| && LoadedBefore(data, k)
      ensures LoadedBefore(Freed(data, true, k), k)
      ensures LoadedBefore(Moved(files, data, true, k), k + 1)
    {
    }

    method NextPayload(files: Files, freePrevious: bool) returns (ok: bool, payload: seq<string>)
      requires Valid()
      modifies `index, parts
      ensures Valid()
      ensures ok == (old(index) < |parts| ==>
                       parts[old(index)].Loadable(files, Freed(old(Data()), freePrevious, old(index))[old(index)]))
      ensures index == old(index) + if ok then 1 else 0
      ensures Data() == if ok then Moved(files, old(Data()), freePrevious, old(index))
                        else Freed(old(Data()), freePrevious, old(index))
      ensures freePrevious && LoadedBefore(old(Data()), old(index)) ==> LoadedBefore(Data(), index)
      ensures ok ==> (payload == [] <==> old(index) >= |parts|)
      ensures ok && old(index) < |parts| ==>
                var p, d := parts[old(index)], Freed(old(Data()), freePrevious, old(index))[old(index)];
                Concat(payload) == Piece(boundary, p.ItemWith(p.Loaded(files, d)), index == |parts|)
    {
      hide *;
      ghost var data, k := Data(), index;
      MovedIs(files, data, freePrevious, k);
      if freePrevious {
        FreePrevious();
        if LoadedBefore(data, k) {
          OneLoaded(files, data, k);
        }
      } else {
        NothingFreed(data, false, k);
      }
      ok, payload := true, [];
      if index < |parts| {
        ok, payload := PartPayload(files);
        if !ok {
          return;
        }
      }
      index := index + 1;
    }

    method FreePrevious()
      requires Valid()
      modifies parts
      ensures Valid()
      ensures Data() == Freed(old(Data()), true, index)
    {
      if index > 0 {
        Free(index - 1);
      }
    }

    /** The payload of the part at `index`. */
    method PartPayload(files: Files) returns (ok: bool, payload: seq<string>)
      requires Valid() && index < |parts|
      modifies parts
      ensures Valid()
      ensures ok == parts[index].Loadable(files, old(Data())[index])
      ensures Data() == if ok then PreparedAt(files, old(Data()), index) else old(Data())
      ensures ok ==> payload != []
      ensures ok ==> var p := parts[index];
                     Concat(payload)
                     == Piece(boundary, p.ItemWith(p.Loaded(files, old(Data())[index])), index + 1 == |parts|)
    {
      hide ItemBytes, Concat;
      payload := AddBoundary([]);
      ok, payload := parts[index].Prepare(files, payload);
      if !ok {
        return;
      }
      PieceAdds(boundary, old(parts[index].AsItem(files)), index + 1 == |parts|);
      if index + 1 == |parts| {
        payload := AddBoundaryEnd(payload);
      }
    }

    /** GetSize: the Content-Length of the form. */
    method GetSize(files: Files) returns (ok: bool, size: nat)
      requires Valid()
      modifies parts
      ensures Valid()
      ensures Data() == old(Data()) && ItemsOf(parts, files) == old(ItemsOf(parts, files))
      ensures ok <==> forall j :: 0 <= j < |parts| ==> old(parts[j].data != "" || parts[j].path in files)
      ensures ok ==> size == if parts == [] then |boundary| + 6 else |FormBytes(boundary, old(ItemsOf(parts, files)))|
    {
      hide ItemsOf, FormBytes;
      ghost var items := ItemsOf(parts, files);
      ItemsAre(files);
      ok, size := SizeOfParts(files, items);
      SameItems(files, items);
      FormSize(boundary, items);
      size := size + |boundary| + 6;
    }

    /** The loop over the parts. */
    method SizeOfParts(files: Files, ghost items: seq<Item>) returns (ok: bool, size: nat)
      requires Valid() && |items| == |parts|
      requires forall j :: 0 <= j < |parts| ==> parts[j].AsItem(files) == items[j]
      modifies parts
      ensures Valid()
      ensures forall j :: 0 <= j < |parts| ==> parts[j].data == old(parts[j].data)
      ensures ok <==> forall j :: 0 <= j < |parts| ==> old(parts[j].data != "" || parts[j].path in files)
      ensures ok ==> size == SizeUpTo(boundary, items, |parts|)
    {
      hide ItemBytes;
      size := 0;
      var i := 0;
      while i < |parts|
        invariant Valid() && i <= |parts|
        invariant forall j :: 0 <= j < |parts| ==> parts[j].data == old(parts[j].data)
        invariant forall j :: 0 <= j < i ==> old(parts[j].data != "" || parts[j].path in files)
        invariant size == SizeUpTo(boundary, items, i)
      {
        var n;
        ok, n := parts[i].GetSize(files);
        if !ok {
          return;
        }
        assert parts[i].AsItem(files) == items[i];
        size := size + |boundary| + 4 + n;
        i := i + 1;
      }
      ok := true;
    }

    lemma SameItems(files: Files, items: seq<Item>)
      requires |items| == |parts| && forall j :: 0 <= j < |parts| ==> parts[j].AsItem(files) == items[j]
      ensures ItemsOf(parts, files) == items
    {
      ItemsAre(files);
    }

    lemma ItemsAre(files: Files)
      ensures |ItemsOf(parts, files)| == |parts|
      ensures forall k :: 0 <= k < |parts| ==> ItemsOf(parts, files)[k] == parts[k].AsItem(files)
    {
      forall k | 0 <= k < |parts|
        ensures |ItemsOf(parts, files)| == |parts| && ItemsOf(parts, files)[k] == parts[k].AsItem(files)
      {
        ItemAt(parts, files, k);
      }
    }

    function Data(): (r: seq<string>)
      reads parts
      ensures |r| == |parts| && forall j :: 0 <= j < |parts| ==> r[j] == parts[j].data
    {
      seq(|parts|, j requires 0 <= j < |parts| reads parts => parts[j].data)
    }

    // -------------------------------------------------------------- iterations

    /** The data of part `k` when its payload is due, given that of all parts when the iteration starts: a part that has
        been written and freed at an earlier position has none left. */
    ghost function Due(was: seq<string>, free: bool, k: nat): string
      requires k < |parts| == |was|
    {
      if free && parts[k] in parts[..k] then "" else was[k]
    }

    /** Prepare does not fail at position `k`. */
    ghost predicate CanWrite(files: Files, was: seq<string>, free: bool, k: nat)
      requires k < |parts| == |was|
    {
      parts[k].Loadable(files, Due(was, free, k))
    }

    /** The items that are written. */
    ghost function WrittenItems(files: Files, was: seq<string>, free: bool): (r: seq<Item>)
      requires |parts| == |was|
      ensures |r| == |parts|
    {
      seq(|parts|, k requires 0 <= k < |parts| => parts[k].ItemWith(parts[k].Loaded(files, Due(was, free, k))))
    }

    /** A part has the same data at all its positions. */
    ghost predicate OfParts(was: seq<string>)
      requires |was| == |parts|
    {
      forall i, j :: 0 <= i < j < |parts| && parts[i] == parts[j] ==> was[i] == was[j]
    }

    /** The data of the parts after `i` calls of NextPayload. */
    ghost function DataAfter(files: Files, was: seq<string>, free: bool, i: nat): (r: seq<string>)
      requires |parts| == |was|
      ensures |r| == |parts|
    {
      seq(|parts|, j requires 0 <= j < |parts| =>
            if parts[j] !in parts[..Min(i, |parts|)] then was[j]
            else if !free then parts[j].Loaded(files, was[j])
            else if 0 < i <= |parts| && parts[j] == parts[i - 1] then parts[j].Loaded(files, Due(was, free, i - 1))
            else "")
    }

    /** The data of a file part is what its file holds. */
    ghost predicate AsLoaded(files: Files, was: seq<string>)
      requires |parts| == |was|
    {
      forall j :: 0 <= j < |parts| && parts[j].path in files ==> was[j] == "" || was[j] == files[parts[j].path]
    }

    /** Nothing is freed, or every part that is written again has a file that gives back what is freed. */
    ghost predicate NothingLost(files: Files, was: seq<string>, free: bool)
      requires |parts| == |was|
    {
      free ==> forall j :: 0 <= j < |parts| && parts[j] in parts[..j] ==> parts[j].path in files || was[j] == ""
    }

    lemma PrefixGrows(k: nat)
      requires k < |parts|
      ensures forall p :: p in parts[..k + 1] <==> p in parts[..k] || p == parts[k]
    {
      assert parts[..k + 1] == parts[..k] + [parts[k]];
    }

    /** A turn of the client's loop. */
    method WriteNext(files: Files, freePrevious: bool, ghost was: seq<string>) returns (ok: bool, payload: seq<string>)
      requires Valid() && |was| == |parts| && OfParts(was) && Data() == DataAfter(files, was, freePrevious, index)
      modifies `index, parts
      ensures Valid()
      ensures ok == (old(index) < |parts| ==> CanWrite(files, was, freePrevious, old(index)))
      ensures ok ==> index == old(index) + 1 && Data() == DataAfter(files, was, freePrevious, index)
      ensures ok ==> (payload == [] <==> old(index) >= |parts|)
      ensures ok ==> var items := WrittenItems(files, was, freePrevious);
                     Concat(payload) + PiecesFrom(boundary, items, index) == PiecesFrom(boundary, items, old(index))
      ensures freePrevious && LoadedBefore(old(Data()), old(index)) ==> LoadedBefore(Data(), index)
    {
      hide *;
      ghost var k := index;
      ok, payload := NextPayload(files, freePrevious);
      AfterNext(files, was, freePrevious, k);
      if k < |parts| {
        FreedIsDue(files, was, freePrevious, k);
        OnePieceLess(files, was, freePrevious, k);
      } else {
        NothingLeft(boundary, WrittenItems(files, was, freePrevious), k);
        NothingLeft(boundary, WrittenItems(files, was, freePrevious), k + 1);
      }
    }

    /** What is in memory when the next part is due. */
    lemma FreedIsDue(files: Files, was: seq<string>, free: bool, k: nat)
      requires k < |parts| == |was|
      ensures var p, d := parts[k], Freed(DataAfter(files, was, free, k), free, k)[k];
              && p.Loadable(files, d) == CanWrite(files, was, free, k)
              && p.Loaded(files, d) == p.Loaded(files, Due(was, free, k))
    {
    }

    lemma AfterNext(files: Files, was: seq<string>, free: bool, k: nat)
      requires |was| == |parts| && OfParts(was)
      ensures Moved(files, DataAfter(files, was, free, k), free, k) == DataAfter(files, was, free, k + 1)
    {
      if k < |parts| {
        FreedIsDue(files, was, free, k);
        PrefixGrows(k);
      }
      forall j | 0 <= j < |parts|
        ensures Moved(files, DataAfter(files, was, free, k), free, k)[j] == DataAfter(files, was, free, k + 1)[j]
      {
        if k >= |parts| {
          assert parts[..|parts|] == parts;
        } else if parts[j] == parts[k] {
          assert was[j] == was[k];
        }
      }
    }

    lemma OnePieceLess(files: Files, was: seq<string>, free: bool, k: nat)
      requires k < |parts| == |was|
      ensures var items, p := WrittenItems(files, was, free), parts[k];
              PiecesFrom(boundary, items, k)
              == Piece(boundary, p.ItemWith(p.Loaded(files, Due(was, free, k))), k + 1 == |parts|)
                 + PiecesFrom(boundary, items, k + 1)
    {
      hide Piece;
    }

    lemma DataOfParts()
      ensures OfParts(Data())
    {
    }

    lemma AfterNone(files: Files, was: seq<string>, free: bool)
      requires |parts| == |was|
      ensures DataAfter(files, was, free, 0) == was
    {
    }

    lemma AfterAll(files: Files, was: seq<string>, free: bool)
      requires |parts| == |was|
      ensures forall j :: 0 <= j < |parts| ==>
                DataAfter(files, was, free, |parts| + 1)[j] == if free then "" else parts[j].Loaded(files, was[j])
    {
      assert parts[..|parts|] == parts;
    }

    /** The client's loop over the payloads, when the socket takes `takes` of them and the write after those fails: what
        has been written, how many calls of NextPayload that takes, and how many files are in memory at most after any
        of them. */
    method WriteSome(files: Files, freePrevious: bool, takes: nat)
      returns (ok: bool, out: string, calls: nat, ghost peak: nat)
      requires Valid()
      modifies `index, parts
      ensures Valid()
      ensures ok <==> forall j :: 0 <= j < |parts| && j <= takes ==> CanWrite(files, old(Data()), freePrevious, j)
      ensures ok ==>
                && calls == index == Min(takes, |parts|) + 1
                && Data() == DataAfter(files, old(Data()), freePrevious, calls)
      ensures ok ==> var items := WrittenItems(files, old(Data()), freePrevious);
                     out + PiecesFrom(boundary, items, Min(takes, |parts|)) == FormBytes(boundary, items)
      ensures freePrevious && LoadedBefore(old(Data()), 0) ==> peak <= 1
    {
      hide Piece, Concat, PiecesFrom, CanWrite, DataAfter, LoadedBefore, LoadedFiles, FormBytes, WrittenItems, OfParts;
      ghost var was := Data();
      DataOfParts();
      AfterNone(files, was, freePrevious);
      AllPieces(boundary, WrittenItems(files, was, freePrevious));
      InitPayload();
      ok, out, calls, peak := WritePayloads(files, freePrevious, takes, was);
    }

    /** The loop itself. */
    method WritePayloads(files: Files, freePrevious: bool, takes: nat, ghost was: seq<string>)
      returns (ok: bool, out: string, calls: nat, ghost peak: nat)
      requires Valid() && index == 0 && |was| == |parts| && OfParts(was)
               && Data() == DataAfter(files, was, freePrevious, 0)
      modifies `index, parts
      ensures Valid()
      ensures ok <==> forall j :: 0 <= j < |parts| && j <= takes ==> CanWrite(files, was, freePrevious, j)
      ensures ok ==> calls == index == Min(takes, |parts|) + 1 && Data() == DataAfter(files, was, freePrevious, calls)
      ensures ok ==> var items := WrittenItems(files, was, freePrevious);
                     out + PiecesFrom(boundary, items, Min(takes, |parts|)) == PiecesFrom(boundary, items, 0)
      ensures freePrevious && LoadedBefore(old(Data()), 0) ==> peak <= 1
    {
      hide *;
      MinIs(takes, |parts|);
      ghost var items := WrittenItems(files, was, freePrevious);
      ghost var few := freePrevious && LoadedBefore(Data(), 0);
      out := "";
      var payload;
      ok, payload := WriteNext(files, freePrevious, was);
      calls, peak := 1, |LoadedFiles()|;
      if few {
        FewLoaded(index);
      }
      while ok && payload != [] && calls <= takes
        invariant Valid() && calls <= Min(takes, |parts|) + 1
        invariant forall j :: 0 <= j < calls - 1 ==> CanWrite(files, was, freePrevious, j)
        invariant ok == (calls <= |parts| ==> CanWrite(files, was, freePrevious, calls - 1))
        invariant ok ==> index == calls && (payload == [] <==> calls > |parts|)
        invariant ok ==> Data() == DataAfter(files, was, freePrevious, calls)
        invariant out + PiecesFrom(boundary, items, calls - 1) == PiecesFrom(boundary, items, 0)
        invariant ok ==> Concat(payload) + PiecesFrom(boundary, items, calls) == PiecesFrom(boundary, items, calls - 1)
        invariant few ==> LoadedBefore(Data(), index) && peak <= 1
        decreases |parts| + 1 - calls
      {
        JoinMore(out, Concat(payload), PiecesFrom(boundary, items, calls));
        out := out + Concat(payload);
        ok, payload := WriteNext(files, freePrevious, was);
        calls := calls + 1;
        peak := if |LoadedFiles()| > peak then |LoadedFiles()| else peak;
        if few {
          FewLoaded(index);
        }
      }
    }

    /** The loop when all writes succeed. With freeing, a part that stands at several positions and has no file is
        written without its data from the second on, so that fewer bytes are written than GetSize has declared. */
    method WriteAll(files: Files, freePrevious: bool) returns (ok: bool, out: string, calls: nat, ghost peak: nat)
      requires Valid()
      modifies `index, parts
      ensures Valid()
      ensures ok <==> forall j :: 0 <= j < |parts| ==> CanWrite(files, old(Data()), freePrevious, j)
      ensures ok ==> out == FormBytes(boundary, WrittenItems(files, old(Data()), freePrevious)) && calls == |parts| + 1
      ensures ok && AsLoaded(files, old(Data())) ==>
                var declared := FormBytes(boundary, old(ItemsOf(parts, files)));
                if NothingLost(files, old(Data()), freePrevious) then out == declared else |out| < |declared|
      ensures ok ==> forall j :: 0 <= j < |parts| ==>
                parts[j].data == if freePrevious then "" else old(parts[j].Content(files))
      ensures freePrevious && LoadedBefore(old(Data()), 0) ==> peak <= 1
    {
      hide ItemsOf, FormBytes, PiecesFrom, CanWrite, DataAfter, LoadedBefore, AsLoaded, NothingLost, WrittenItems;
      ghost var was := Data();
      DeclaredOrLess(files, freePrevious);
      ok, out, calls, peak := WriteSome(files, freePrevious, |parts|);
      if ok {
        NothingLeft(boundary, WrittenItems(files, was, freePrevious), |parts|);
        AfterAll(files, was, freePrevious);
      }
    }

    lemma DeclaredOrLess(files: Files, free: bool)
      ensures AsLoaded(files, Data()) ==>
                var written, items := WrittenItems(files, Data(), free), ItemsOf(parts, files);
                && Emptied(items, written) && (items == written <==> NothingLost(files, Data(), free))
                && (items != written ==> |FormBytes(boundary, written)| < |FormBytes(boundary, items)|)
    {
      hide FormBytes, ItemsOf;
      ItemsAre(files);
      if AsLoaded(files, Data()) {
        LostIsShorter(boundary, ItemsOf(parts, files), WrittenItems(files, Data(), free));
      }
    }

    // -------------------------------------------------------------- a second iteration

    /** The part at position `j` is among the first `k`, which are freed, and no file gives its data back. */
    ghost predicate LostAt(files: Files, was: seq<string>, free: bool, k: nat, j: nat)
      requires j < |parts| == |was|
    {
      free && j < k && parts[j].path !in files && was[j] != ""
    }

    ghost predicate LostBefore(files: Files, was: seq<string>, free: bool, k: nat)
      requires k <= |parts| == |was|
    {
      exists j :: 0 <= j < |parts| && LostAt(files, was, free, k, j)
    }

    /** Sending a request a second time, as on a new connection after a write has failed: from the first iteration, of
        which any number of payloads has been written, there is nothing left of the parts that were freed. The same
        bytes are written as would have been at first exactly when nothing was freed that a file does not give back. */
    method WriteTwice(files: Files, freePrevious: bool, takes: nat)
      returns (ok: bool, again: bool, first: string, second: string)
      requires Valid()
      modifies `index, parts
      ensures Valid()
      ensures ok <==> forall j :: 0 <= j < |parts| && j <= takes ==> CanWrite(files, old(Data()), freePrevious, j)
      ensures ok ==>
                (again
                 <==> && (forall j :: 0 <= j < |parts| ==> CanWrite(files, old(Data()), freePrevious, j))
                      && (freePrevious ==> forall j :: 0 <= j < Min(takes, |parts|) ==> parts[j].Loadable(files, "")))
      ensures ok ==> var items := WrittenItems(files, old(Data()), freePrevious);
                     first + PiecesFrom(boundary, items, Min(takes, |parts|)) == FormBytes(boundary, items)
      ensures ok && again && AsLoaded(files, old(Data())) ==>
                (second == FormBytes(boundary, WrittenItems(files, old(Data()), freePrevious))
                 <==> !LostBefore(files, old(Data()), freePrevious, Min(takes, |parts|)))
    {
      hide *;
      ghost var was := Data();
      DataOfParts();
      var calls;
      ghost var peak;
      again, second := false, "";
      ok, first, calls, peak := WriteSome(files, freePrevious, takes);
      if ok {
        MinIs(takes, |parts|);
        WritableAgain(files, freePrevious, was, Min(takes, |parts|));
        if AsLoaded(files, was) {
          SameAgain(files, freePrevious, was, Min(takes, |parts|));
        }
        again, second, calls, peak := WriteAll(files, freePrevious);
      }
    }

    lemma WritableAgain(files: Files, free: bool, was: seq<string>, k: nat)
      requires k <= |parts| == |was|
      requires forall j :: 0 <= j < |parts| && j <= k ==> CanWrite(files, was, free, j)
      ensures var now := DataAfter(files, was, free, k + 1);
              (forall j :: 0 <= j < |parts| ==> CanWrite(files, now, free, j))
              <==> && (forall j :: 0 <= j < |parts| ==> CanWrite(files, was, free, j))
                   && (free ==> forall j :: 0 <= j < k ==> parts[j].Loadable(files, ""))
    {
      hide DataAfter;
      var now := DataAfter(files, was, free, k + 1);
      forall j | 0 <= j < |parts|
        ensures CanWrite(files, now, free, j)
                <==> CanWrite(files, was, free, j) && (free && j < k ==> parts[j].Loadable(files, ""))
      {
        LeftFor(files, free, was, k, j);
      }
    }

    /** The data left for a second iteration at position `j`, when the first has got to position `k`. */
    lemma LeftFor(files: Files, free: bool, was: seq<string>, k: nat, j: nat)
      requires j < |parts| == |was| && k <= |parts|
      ensures var d, left := Due(was, free, j), Due(DataAfter(files, was, free, k + 1), free, j);
              || left == d
              || left == parts[j].Loaded(files, d)
              || (free && j < k && (left == "" || left == parts[j].Loaded(files, "")))
      ensures free && j < k && parts[j] !in parts[..j] ==>
                var left := Due(DataAfter(files, was, free, k + 1), free, j);
                left == "" || left == parts[j].Loaded(files, "")
    {
      var n := Min(k + 1, |parts|);
      if j < n {
        assert parts[..n][j] == parts[j];
      } else if parts[j] in parts[..n] {
        assert parts[..n] <= parts[..j];
      }
      if j < k {
        assert parts[..k][j] == parts[j];
      }
    }

    lemma ItemAgain(files: Files, free: bool, was: seq<string>, k: nat, j: nat)
      requires j < |parts| == |was| && k <= |parts| && AsLoaded(files, was)
      ensures var before := WrittenItems(files, was, free);
              var now := WrittenItems(files, DataAfter(files, was, free, k + 1), free);
              now[j] == if parts[j] !in parts[..j] && LostAt(files, was, free, k, j) then before[j].(data := "")
                        else before[j]
      ensures parts[j] !in parts[..j] && LostAt(files, was, free, k, j) ==>
                WrittenItems(files, was, free)[j].data != ""
    {
      hide DataAfter;
      LeftFor(files, free, was, k, j);
    }

    /** The data of the items written before and now. */
    lemma SameAgain(files: Files, free: bool, was: seq<string>, k: nat)
      requires k <= |parts| == |was| && OfParts(was) && AsLoaded(files, was)
      ensures var before := WrittenItems(files, was, free);
              var now := WrittenItems(files, DataAfter(files, was, free, k + 1), free);
              FormBytes(boundary, now) == FormBytes(boundary, before) <==> !LostBefore(files, was, free, k)
    {
      hide FormBytes, DataAfter, WrittenItems, AsLoaded;
      var before, now := WrittenItems(files, was, free), WrittenItems(files, DataAfter(files, was, free, k + 1), free);
      forall j | 0 <= j < |parts|
        ensures now[j] == before[j] || now[j] == before[j].(data := "")
        ensures now[j] == before[j] <==> !(parts[j] !in parts[..j] && LostAt(files, was, free, k, j))
      {
        ItemAgain(files, free, was, k, j);
      }
      LostIsShorter(boundary, before, now);
      if LostBefore(files, was, free, k) {
        var j :| 0 <= j < |parts| && LostAt(files, was, free, k, j);
        var i := FirstOf(j);
        assert LostAt(files, was, free, k, i);
        assert now[i] != before[i];
      } else {
        assert forall j :: 0 <= j < |parts| ==> now[j] == before[j];
        assert now == before;
      }
    }

    lemma FirstOf(j: nat) returns (i: nat)
      requires j < |parts|
      ensures i <= j && parts[i] == parts[j] && parts[i] !in parts[..i]
    {
      i := j;
      if parts[j] in parts[..j] {
        var h :| 0 <= h < j && parts[..j][h] == parts[j];
        i := FirstOf(h);
      }
    }
  }

  lemma {:induction false} SizeDrops(boundary: string, items: seq<Item>, now: seq<Item>, k: nat)
    requires Emptied(items, now) && k <= |items|
    ensures SizeUpTo(boundary, now, k) <= SizeUpTo(boundary, items, k)
    ensures SizeUpTo(boundary, now, k) == SizeUpTo(boundary, items, k) ==> now[..k] == items[..k]
  {
    hide ItemBytes, ItemHeaders, HeaderBytes;
    if k > 0 {
      SizeDrops(boundary, items, now, k - 1);
      ItemBytesAre(items[k - 1], "");
      ItemBytesAre(now[k - 1], "");
      assert now[..k] == now[..k - 1] + [now[k - 1]] && items[..k] == items[..k - 1] + [items[k - 1]];
    }
  }

  /** A form that has lost data is shorter. */
  lemma {:induction false} LostIsShorter(boundary: string, items: seq<Item>, now: seq<Item>)
    requires Emptied(items, now)
    ensures items != now ==> |FormBytes(boundary, now)| < |FormBytes(boundary, items)|
  {
    hide FormBytes;
    FormSize(boundary, items);
    FormSize(boundary, now);
    SizeDrops(boundary, items, now, |items|);
    assert items[..|items|] == items && now[..|items|] == now;
  }

  lemma MinIs(a: nat, b: nat)
    ensures Min(a, b) == if a <= b then a else b
  {
  }

  lemma JoinMore(a: string, b: string, c: string)
    ensures a + b + c == a + (b + c)
  {
  }

  lemma NothingLeft(boundary: string, items: seq<Item>, k: nat)
    requires k >= |items|
    ensures PiecesFrom(boundary, items, k) == "" && Concat([]) == ""
  {
  }

  lemma AllPieces(boundary: string, items: seq<Item>)
    ensures PiecesFrom(boundary, items, 0) == FormBytes(boundary, items)
  {
    if items != [] {
      PiecesAreForm(boundary, items, 0);
      assert items[0..] == items;
    }
  }

  function SizeUpTo(boundary: string, items: seq<Item>, k: nat): nat
    requires k <= |items|
  {
    if k == 0 then 0 else SizeUpTo(boundary, items, k - 1) + |boundary| + 4 + |ItemBytes(items[k - 1])|
  }

  lemma {:induction false} SizesAdd(boundary: string, items: seq<Item>, k: nat)
    requires k < |items|
    ensures SizeUpTo(boundary, items, k) + |PiecesFrom(boundary, items, k)| == |PiecesFrom(boundary, items, 0)|
  {
    hide Piece, ItemBytes, PiecesFrom;
    if k > 0 {
      SizesAdd(boundary, items, k - 1);
      PiecesLength(boundary, items, k - 1);
    }
  }

  lemma PiecesLength(boundary: string, items: seq<Item>, k: nat)
    requires k < |items|
    ensures |PiecesFrom(boundary, items, k)| ==
            |boundary| + 4 + |ItemBytes(items[k])|
            + (if k + 1 == |items| then |boundary| + 6 else |PiecesFrom(boundary, items, k + 1)|)
  {
    hide Piece, ItemBytes;
    PieceAdds(boundary, items[k], k + 1 == |items|);
  }

  lemma {:induction false} FormSize(boundary: string, items: seq<Item>)
    ensures items != [] ==> SizeUpTo(boundary, items, |items|) + |boundary| + 6 == |FormBytes(boundary, items)|
  {
    hide Piece, ItemBytes, FormBytes, PiecesFrom;
    if items != [] {
      SizesAdd(boundary, items, |items| - 1);
      PiecesLength(boundary, items, |items| - 1);
      AllPieces(boundary, items);
    }
  }
}
