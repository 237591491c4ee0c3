/**
 * The two persisted record types of the core: the account document (User
 * schema) and the message document (Message schema), with the defaults and
 * the checks the schemas apply when a document is saved.
 */
module Models {
  import opened Base
  import opened JsOps

  /** The `role` enum: no other value can be stored. */
  datatype Role = Client | Admin

  /**
   * An account document. `password` holds the bcrypt digest, `favoris` the
   * favourite listings, `refreshTokens` the refresh tokens still accepted,
   * `resetCode`/`resetCodeExpires` the pending reset code and its expiry in
   * milliseconds since the epoch (`None` is the schema's `null`).
   */
  datatype Account = Account(
    id: Id,
    nom: string,
    email: string,
    password: string,
    telephone: string,
    role: Role,
    favoris: seq<Id>,
    refreshTokens: seq<string>,
    resetCode: Option<string>,
    resetCodeExpires: Option<int>)

  /**
   * The document `User.create` builds from the four supplied fields: the
   * email goes through the schema's trim setter and every other field
   * takes its default.
   */
  function NewAccount(id: Id, nom: string, email: string, telephone: string, password: string): Account
  {
    Account(id, nom, Trim(email), password, telephone, Client, [], [], None, None)
  }

  /**
   * What validation on `save` demands of an account: the required strings
   * are present (Mongoose treats "" as missing) and the email is stored
   * trimmed. The `minlength: 8` on `password` applies to the stored digest
   * and is not part of this model.
   */
  predicate SchemaValid(a: Account)
  {
    a.nom != "" && a.email != "" && a.password != "" && a.telephone != ""
    && Trimmed(a.email)
  }

  /**
   * A new account passes validation exactly when the supplied name, phone,
   * digest and trimmed email are non-empty; its email is stored trimmed
   * (trimming it again changes nothing), and it starts as a client with no
   * favourites, no refresh token and no reset code.
   */
  lemma NewAccountValid(id: Id, nom: string, email: string, telephone: string, password: string)
    ensures SchemaValid(NewAccount(id, nom, email, telephone, password))
        <==> nom != "" && Trim(email) != "" && telephone != "" && password != ""
    ensures var a := NewAccount(id, nom, email, telephone, password);
            a.email == Trim(email) && Trim(a.email) == a.email
            && a.role == Client && a.favoris == [] && a.refreshTokens == []
            && a.resetCode == None && a.resetCodeExpires == None
  {
    TrimFixes(Trim(email));
  }

  /**
   * A message document. `lu` is the read flag; `createdAt` is the creation
   * timestamp the schema's `timestamps` option supplies.
   */
  datatype Message = Message(
    id: Id,
    expediteur: Id,
    destinataire: Id,
    contenu: string,
    lu: bool,
    createdAt: int)

  /** The document `Message.create` builds: unread, stamped with the creation time. */
  function NewMessage(id: Id, expediteur: Id, destinataire: Id, contenu: string, now: int): Message
  {
    Message(id, expediteur, destinataire, contenu, false, now)
  }

  /** `contenu` is a required string, so "" is refused on creation. */
  predicate MessageSchemaValid(m: Message)
  {
    m.contenu != ""
  }
}
