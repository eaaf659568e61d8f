/** Putting a message together from its parts (`MessageDevice::saveMessage`). */
module MessageParts {
  import opened Bytes
  import opened FolderIndex
  import MimeCodec

  /** A message under construction: its text and where each part has been put in it. */
  datatype Draft = Draft(text: seq<Byte>, parts: seq<Part>)

  function AddBody(d: Draft, preamble: seq<Byte>, body: Body): Draft {
    Draft(d.text + preamble + body.bytes, d.parts + [Part(|d.text + preamble|, |body.bytes|, body.encoding)])
  }

  /** Header, then every part's own header and body. */
  function Assemble(header: seq<Byte>, preambles: seq<seq<Byte>>, bodies: seq<Body>): Draft
    requires |preambles| == |bodies|
  {
    if bodies == [] then Draft(header, [])
    else
      var n := |bodies| - 1;
      AddBody(Assemble(header, preambles[..n], bodies[..n]), preambles[n], bodies[n])
  }

  lemma AssembleOne(header: seq<Byte>, preambles: seq<seq<Byte>>, bodies: seq<Body>, i: nat)
    requires i < |preambles| == |bodies|
    ensures Assemble(header, preambles[..i + 1], bodies[..i + 1])
            == AddBody(Assemble(header, preambles[..i], bodies[..i]), preambles[i], bodies[i])
  {
    assert preambles[..i + 1][..i] == preambles[..i] && bodies[..i + 1][..i] == bodies[..i];
  }

  lemma PartsReadMore(parts: seq<Part>, text: seq<Byte>, more: seq<Byte>, bodies: seq<Body>)
    requires PartsRead(parts, 0, text, bodies)
    ensures PartsRead(parts, 0, text + more, bodies)
  {
    forall i | 0 <= i < |parts| ensures PartReads(parts[i], 0, text + more, bodies[i]) {
      var p := parts[i];
      assert PartReads(p, 0, text, bodies[i]);
      if !Unfinished(p) {
        assert (text + more)[p.offset..p.offset + p.length] == text[p.offset..p.offset + p.length];
      }
    }
  }

  /** The recorded offsets and lengths locate exactly the bodies. */
  lemma {:induction false} AssembleReads(header: seq<Byte>, preambles: seq<seq<Byte>>, bodies: seq<Body>)
    requires |preambles| == |bodies|
    ensures
      var d := Assemble(header, preambles, bodies);
      PartsRead(d.parts, 0, d.text, bodies)
    decreases |bodies|
  {
    if bodies != [] {
      var n := |bodies| - 1;
      var d, d' := Assemble(header, preambles[..n], bodies[..n]), Assemble(header, preambles, bodies);
      AssembleReads(header, preambles[..n], bodies[..n]);
      PartsReadMore(d.parts, d.text, preambles[n] + bodies[n].bytes, bodies[..n]);
      assert d.text + (preambles[n] + bodies[n].bytes) == d'.text;
      assert PartReads(d'.parts[n], 0, d'.text, bodies[n]);
      forall i | 0 <= i < |d'.parts| ensures PartReads(d'.parts[i], 0, d'.text, bodies[i]) {
        if i < n {
          assert PartReads(d.parts[i], 0, d'.text, bodies[..n][i]);
        }
      }
    }
  }

  /** Shifting relative offsets by where the message starts. */
  lemma AbsoluteReads(parts: seq<Part>, base: nat, text: seq<Byte>, bodies: seq<Body>)
    requires PartsRead(parts, 0, text, bodies)
    ensures PartsRead(Absolute(parts, base), base, text, bodies)
  {
    forall i | 0 <= i < |parts| ensures PartReads(Absolute(parts, base)[i], base, text, bodies[i]) {
      assert PartReads(parts[i], 0, text, bodies[i]);
    }
  }

  /** The buffer that becomes the body of a part: the chosen part is encoded anew unless `data` is empty. */
  function Buffer(body: Body, chosen: bool, data: seq<Byte>, footer: CText): seq<Byte> {
    if chosen && data != [] then MimeCodec.Encode(data, body.encoding, footer) else body.bytes
  }

  /** The bodies that a save writes, all of them as C strings. */
  function NewBodies(bodies: seq<Body>, chosen: int, data: seq<Byte>, footer: CText): (r: seq<Body>)
    ensures |r| == |bodies|
    ensures forall i :: 0 <= i < |r| ==>
              r[i] == bodies[i].(bytes := CString(Buffer(bodies[i], i == chosen, data, footer)))
  {
    seq(|bodies|,
        i requires 0 <= i < |bodies| =>
          bodies[i].(bytes := CString(Buffer(bodies[i], i == chosen, data, footer))))
  }

  /** The characters that are to be the body of a part. */
  function Intended(body: Body, chosen: bool, data: seq<Byte>, footer: CText): seq<Byte> {
    if chosen && data != [] then MimeCodec.Encoded(data, body.encoding, footer) else body.bytes
  }

  /**
   Every part gets the characters that are to be its body, new ones for the chosen part and the
   old ones for the others, exactly when there is no NUL in them.
   */
  lemma NewBodiesKeep(bodies: seq<Body>, chosen: int, data: seq<Byte>, footer: CText, i: nat)
    requires i < |bodies|
    ensures
      var intended := Intended(bodies[i], i == chosen, data, footer);
      NewBodies(bodies, chosen, data, footer)[i].bytes == intended <==> NUL !in intended
  {
    if i == chosen && data != [] {
      MimeCodec.BodyIsEncoded(data, bodies[i].encoding, footer);
      MimeCodec.EncodedHasNoNul(data, bodies[i].encoding, footer);
    } else {
      CStringKeeps(bodies[i].bytes);
    }
  }

  /** New bytes with a NUL in them are cut where the encoding copies them. */
  lemma NewBodyIsCut()
    ensures NewBodies([Body([65], "binary")], 0, [66, NUL, 67], [])[0].bytes == [66]
  {
    var data: seq<Byte>, bodies := [66, NUL, 67], [Body([65], "binary")];
    assert data[1..][0] == NUL;
    assert CString(data) == [66] + CString(data[1..]) == [66];
    var _ := NewBodies(bodies, 0, data, []);
    assert MimeCodec.Lower("binary") == "binary";
  }
}
