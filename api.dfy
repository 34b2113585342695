/**
 * The JSON shape in which the server hands a generation to the client: an element of
 * `data` in the reply of `GET /api/history`, and the whole reply of `POST /api/generate`.
 */
module Api {

  /** `{id, prompt, code, language, createdAt}`; `language` is the Language key, `createdAt` an abstract timestamp. */
  datatype Item = Item(id: int, prompt: string, code: string, language: string, createdAt: int)
}
