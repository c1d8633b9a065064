/** What it means for two documents that their hashes are equal. */
module Comparison {
  import opened Bytes
  import opened Ast
  import opened Canonical
  import opened Continuation
  import opened Grammar
  import opened Parsing
  import opened Documents
  import opened DocumentCode
  import opened Levels

  /** With nothing left out, two valid documents have the same hash exactly if they are the same
      document, layout and descriptions aside. One of them must be clear, or have values that can
      be read back while neither has directives on a last variable definition; and the hash must
      not collide on the two canonical forms. */
  lemma SameHashSameDocument(digest: bytes -> bytes, a: bytes, b: bytes, da: Document, db: Document, o: Options)
    requires Spells(a, da) && Spells(b, db) && Fits(da, LimitOf(o)) && Fits(db, LimitOf(o)) && o.ignore == Nothing
    requires ClearDocument(da) || (ClearBodies(da) && AllEndPlain(da) && AllEndPlain(db))
    requires digest(SerDocument(Nothing, da)) == digest(SerDocument(Nothing, db)) ==> SerDocument(Nothing, da) == SerDocument(Nothing, db)
    ensures DigestOf(digest, a, o).Some? && DigestOf(digest, b, o).Some?
    ensures DigestOf(digest, a, o) == DigestOf(digest, b, o) <==> PlainDocument(da) == PlainDocument(db)
  {
    hide Reading, WfDefinitions, Tokens, DocumentTokens, Fits, SerDocument, ClearDocument, ClearBodies, AllEndPlain, PlainDocument;
    DepthLimitExact(a, o, da);
    DepthLimitExact(b, o, db);
    PlainDocumentSame(da, Nothing, 0);
    PlainDocumentSame(db, Nothing, 0);
    if SerDocument(Nothing, da) == SerDocument(Nothing, db) {
      if ClearDocument(da) {
        ClearDocumentCode(da, db);
      } else {
        PlainEndsCode(da, db);
      }
    }
  }

  /** With inputs and variables left out, exactly if they are the same but for those. */
  lemma SameHashWithoutVariables(digest: bytes -> bytes, a: bytes, b: bytes, da: Document, db: Document, o: Options)
    requires Spells(a, da) && Spells(b, db) && Fits(da, LimitOf(o)) && Fits(db, LimitOf(o)) && o.ignore == Variables
    requires digest(SerDocument(Variables, da)) == digest(SerDocument(Variables, db)) ==>
               SerDocument(Variables, da) == SerDocument(Variables, db)
    ensures DigestOf(digest, a, o).Some? && DigestOf(digest, b, o).Some?
    ensures DigestOf(digest, a, o) == DigestOf(digest, b, o) <==>
              PlainDocument(BareDocument(UnsignedDocument(da))) == PlainDocument(BareDocument(UnsignedDocument(db)))
  {
    hide Reading, WfDefinitions, Tokens, DocumentTokens, Fits, SerDocument, PlainDocument, BareDocument, UnsignedDocument;
    DepthLimitExact(a, o, da);
    DepthLimitExact(b, o, db);
    VariablesTell(da, db);
  }
}
