/** A client's identity: its id and key pair, and the crypto library it
    uses. The library is left uninterpreted: signing, verification and
    hashing are arbitrary functions supplied by the caller, and nothing is
    assumed about them unless a lemma states it as a precondition. */
module Accounts {

  /** `crypto::signMessage`, `crypto::verifySignature` and `crypto::sha256`. */
  datatype Crypto = Crypto(
    sign: (string, string) -> string,         // (private key, message) -> signature
    verify: (string, string, string) -> bool, // (public key, message, signature) -> valid?
    sha256: string -> string)                 // message -> hex digest

  datatype Client = Client(id: string, publicKey: string, privateKey: string)

  /** `Client::Client`: the id is stored verbatim (uniqueness is the
      server's business) together with the key pair `crypto::generate_key`
      produced, given here as `keys` = (public key, private key). */
  function NewClient(id: string, keys: (string, string)): (c: Client)
    ensures GetId(c) == id
    ensures GetPublicKey(c) == keys.0
  {
    Client(id, keys.0, keys.1)
  }

  /** `Client::get_id`. */
  function GetId(c: Client): string {
    c.id
  }

  /** `Client::get_publickey`. */
  function GetPublicKey(c: Client): string {
    c.publicKey
  }

  /** `Client::sign`: a signature over `txt` with the client's private key. */
  function Sign(c: Client, crypto: Crypto, txt: string): string {
    crypto.sign(c.privateKey, txt)
  }
}
