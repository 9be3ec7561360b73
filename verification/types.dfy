/** The record shape shared by the store and the table: one legal case. */
module Types {

  /** The usual present/absent wrapper; `None` stands for JavaScript's `null`. */
  datatype Option<T> = None | Some(value: T)

  /** The two values the `status` field may take. */
  datatype Status = Ativo | Encerrado

  /** A case record. `numero` is the key the store matches on for update and
      delete; every other field is carried along unchanged. `valorCausa` is a
      JSON number on which the store does no arithmetic, so a `real` stands for
      it; the date is kept as the ISO text it is stored as. */
  datatype Processo = Processo(
    numero: string,
    reclamante: string,
    reclamada: string,
    status: Status,
    valorCausa: real,
    dataAjuizamento: string,
    cidade: string,
    uf: string,
    vara: string)
}
