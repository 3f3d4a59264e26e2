/** Printer, wire and parser object together: a form sent in pieces of any size arrives. */
module MultipartForms {
  import opened FormDataParsing
  import opened FormItems
  import opened Multipart
  import opened MultipartRefusals
  import opened MultipartRoundTrip
  import opened Strings

  /** `body` in pieces of the given sizes, the last one with whatever is left. */
  function Cut(body: string, sizes: seq<nat>): seq<string> {
    if sizes == [] then [body]
    else
      var n := if sizes[0] <= |body| then sizes[0] else |body|;
      [body[..n]] + Cut(body[n..], sizes[1..])
  }

  lemma {:induction false} CutLosesNothing(body: string, sizes: seq<nat>)
    ensures Flatten(Cut(body, sizes)) == body
    decreases |sizes|
  {
    if sizes == [] {
      assert [body][1..] == [] && body + "" == body;
    } else {
      var n := if sizes[0] <= |body| then sizes[0] else |body|;
      CutLosesNothing(body[n..], sizes[1..]);
      assert ([body[..n]] + Cut(body[n..], sizes[1..]))[1..] == Cut(body[n..], sizes[1..]);
      assert body[..n] + body[n..] == body;
    }
  }

  /** The form is printed, cut, and fed to a new parser: it is accepted, valid, and every item has arrived. */
  method FormRoundTrip<F(!new)>(c: Config<F>, items: seq<UploadFormData>, sizes: seq<nat>)
    returns (ok: bool, valid: bool, log: seq<Event<F>>)
    requires items != [] && Fits(c, PartsOf(items))
    ensures ok && valid && Assemble(log) == Some(Expected(c, PartsOf(items)))
  {
    var body := SerializeFormData(items, c.boundary, true);
    var frags := Cut(body, sizes);
    CutLosesNothing(body, sizes);
    assert Flatten(frags) + "" == Flatten(frags);
    var parser := new FormDataParser(c.blank, c.decode, c.accept);
    parser.SetBoundary(c.boundary);
    assert parser.Cfg() == c && parser.View() == Start(c);
    MultipartRoundTrip.MultipartRoundTrip(c, items, frags, "");
    ok := parser.ParseAll(frags);
    valid, log := parser.valid, parser.log;
  }

  /**
   * The same with the code's own reading of header lines: the items read on the
   * server are the very items sent if and only if a form can carry each of them.
   */
  method FormArrives(boundary: string, items: seq<UploadFormData>, sizes: seq<nat>)
    returns (ok: bool, uploads: seq<UploadFormData>)
    requires items != []
    requires Framed(FormConfig(boundary, log => true), PartsOf(items))
    ensures ok && uploads == items <==> forall i :: 0 <= i < |items| ==> Carried(items[i])
  {
    var c := FormConfig(boundary, log => true);
    var body := SerializeFormData(items, boundary, true);
    var frags := Cut(body, sizes);
    CutLosesNothing(body, sizes);
    var parser := new FormDataParser(c.blank, c.decode, c.accept);
    parser.SetBoundary(boundary);
    assert parser.Cfg() == c && parser.View() == Start(c);
    FormComesBack(boundary, items, frags);
    ok := parser.ParseAll(frags);
    ok := ok && parser.valid;
    uploads := match Assemble(parser.log) case Some(rs) => Uploads(rs) case None => [];
  }
}
