/**
 * The parts of a Flask request the upload handler reads: the multipart file
 * parts (request.files) and the plain form fields (request.form), plus the
 * JSON error reply every handler returns on failure.
 */
module Requests {
  import opened Wrappers

  newtype byte = x: int | 0 <= x < 256

  /**
   * A werkzeug MultiDict, as the (key, value) pairs of the multipart body in
   * the order they arrived. A key may occur more than once.
   */
  type MultiDict<V> = seq<(string, V)>

  /**
   * `key in d` / `d[key]` / `d.get(key)`: the value of the FIRST pair with
   * that key, or None when no pair has it.
   */
  function Get<V>(d: MultiDict<V>, key: string): (r: Option<V>)
    ensures r.None? <==> forall i :: 0 <= i < |d| ==> d[i].0 != key
    ensures r.Some? ==>
      exists i :: 0 <= i < |d| && d[i] == (key, r.value) && forall j :: 0 <= j < i ==> d[j].0 != key
    decreases |d|
  {
    if d == [] then None
    else if d[0].0 == key then Some(d[0].1)
    else
      var r := Get(d[1..], key);
      assert r.Some? ==> exists i :: 1 <= i < |d| && d[i] == (key, r.value) && forall j :: 0 <= j < i ==> d[j].0 != key by {
        if r.Some? {
          var i :| 0 <= i < |d[1..]| && d[1..][i] == (key, r.value) && forall j :: 0 <= j < i ==> d[1..][j].0 != key;
          assert forall j :: 0 <= j < i + 1 ==> d[j].0 != key by {
            forall j | 0 <= j < i + 1 ensures d[j].0 != key {
              if j > 0 { assert d[j] == d[1..][j - 1]; }
            }
          }
        }
      }
      r
  }

  /** One uploaded file part: the client's filename and the part's bytes. */
  datatype FileStorage = FileStorage(filename: string, content: seq<byte>)

  /** What POST /upload reads of the request. */
  datatype UploadRequest = UploadRequest(files: MultiDict<FileStorage>, form: MultiDict<string>)

  /** A `jsonify({'error': message}), status` reply. */
  datatype HttpError = HttpError(status: nat, message: string)
}
