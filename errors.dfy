/**
 * The exceptions that escape get_container_ip and add_ports. None of them
 * comes from running a command: they are raised by the Docker client lookup,
 * by get_container_ip itself, and by add_ports' parsing of a port pair.
 */
module Errors {

  datatype Failure =
    | ContainerNotFound(idOrName: string)  // the Docker client knows no such container
    | NetworkNotFound(message: string)     // the RuntimeError of get_container_ip
    | MissingColon(pair: string)           // the IndexError of `pair.split(':')[1]` in add_ports
}
