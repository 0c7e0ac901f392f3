/**
 * The note object a client sends with a "ContentChange" event. The editor
 * builds it as `{...note, content, folder}` from its note prop, and the
 * server relays it without looking inside, except for `id`, which names
 * the room.
 */
module Wire {

  datatype NotePayload = NotePayload(
    id: string,
    title: string,
    content: string,
    createdAt: string,
    folder: string)
}
